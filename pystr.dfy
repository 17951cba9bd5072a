/** The Python string built-ins that WikiSearcher relies on: the substring test
    `sub in s`, `s.split()` (runs of whitespace separate words, no empty words),
    `s.split('\n')[0]` (text before the first line feed) and `" ".join(words)`. */
module PyStr {

  /** `sub in s`: sub is a prefix of some suffix of s (the empty string is in every string). */
  predicate Contains(s: string, sub: string)
    decreases |s|
  {
    sub <= s || (|s| > 0 && Contains(s[1..], sub))
  }

  /** sub starts at position i of s. */
  ghost predicate OccursAt(s: string, sub: string, i: int)
  {
    0 <= i && i + |sub| <= |s| && s[i..i + |sub|] == sub
  }

  /** An occurrence at position 0 is a prefix. */
  lemma OccursAtStart(s: string, sub: string)
    ensures OccursAt(s, sub, 0) ==> sub <= s
  {
  }

  /** An occurrence past position 0 is an occurrence in the tail. */
  lemma OccursInTail(s: string, sub: string, i: int)
    requires |s| > 0 && i > 0
    ensures OccursAt(s, sub, i) <==> OccursAt(s[1..], sub, i - 1)
  {
    if i + |sub| <= |s| {
      assert s[1..][i - 1..i - 1 + |sub|] == s[i..i + |sub|];
    }
  }

  /** Contains agrees with the positional definition of a substring. */
  lemma {:induction false} ContainsIffOccurs(s: string, sub: string)
    ensures Contains(s, sub) <==> exists i :: OccursAt(s, sub, i)
    decreases |s|
  {
    if sub <= s {
      assert s[0..|sub|] == sub;
      assert OccursAt(s, sub, 0);
    } else if |s| == 0 {
      forall i ensures !OccursAt(s, sub, i) {
        OccursAtStart(s, sub);
      }
    } else {
      ContainsIffOccurs(s[1..], sub);
      if Contains(s[1..], sub) {
        var i :| OccursAt(s[1..], sub, i);
        OccursInTail(s, sub, i + 1);
      } else {
        forall i ensures !OccursAt(s, sub, i) {
          OccursAtStart(s, sub);
          if i > 0 {
            OccursInTail(s, sub, i);
          }
        }
      }
    }
  }

  /** The characters Python's str.split() with no argument treats as whitespace. */
  predicate IsSpace(c: char)
  {
    c in {' ', '\t', '\n', '\r', '\U{0b}', '\U{0c}', '\U{1c}', '\U{1d}', '\U{1e}', '\U{1f}',
          '\U{85}', '\U{a0}', '\U{1680}', '\U{2028}', '\U{2029}', '\U{202f}', '\U{205f}', '\U{3000}'}
    || ('\U{2000}' <= c <= '\U{200a}')
  }

  /** A word as split() yields it: non-empty and free of whitespace. */
  predicate IsWord(w: string)
  {
    |w| > 0 && forall j :: 0 <= j < |w| ==> !IsSpace(w[j])
  }

  predicate AllWords(ws: seq<string>)
  {
    forall i :: 0 <= i < |ws| ==> IsWord(ws[i])
  }

  /** The characters of s that are not whitespace, in order. */
  function NonSpace(s: string): string
  {
    if s == [] then [] else if IsSpace(s[0]) then NonSpace(s[1..]) else [s[0]] + NonSpace(s[1..])
  }

  /** All words concatenated. */
  function Concat(ws: seq<string>): string
  {
    if ws == [] then [] else ws[0] + Concat(ws[1..])
  }

  /** split() scanning s with the word read so far in w. */
  function SplitFrom(s: string, w: string): (ws: seq<string>)
    requires forall j :: 0 <= j < |w| ==> !IsSpace(w[j])
    ensures AllWords(ws)
    decreases |s|
  {
    if s == [] then (if w == [] then [] else [w])
    else if IsSpace(s[0]) then (if w == [] then SplitFrom(s[1..], []) else [w] + SplitFrom(s[1..], []))
    else SplitFrom(s[1..], w + [s[0]])
  }

  /** `s.split()` */
  function Split(s: string): (ws: seq<string>)
    ensures AllWords(ws)
  {
    SplitFrom(s, [])
  }

  /** `" ".join(ws)` */
  function JoinSpaces(ws: seq<string>): string
  {
    if ws == [] then [] else if |ws| == 1 then ws[0] else ws[0] + " " + JoinSpaces(ws[1..])
  }

  /** `s.split('\n')[0]`: the text before the first line feed, or all of s when it has none. */
  function FirstLine(s: string): (r: string)
    ensures r <= s
    ensures '\n' !in r
    ensures r == s || s[|r|] == '\n'
  {
    if s == [] || s[0] == '\n' then [] else [s[0]] + FirstLine(s[1..])
  }

  lemma {:induction false} ConcatSplitFrom(s: string, w: string)
    requires forall j :: 0 <= j < |w| ==> !IsSpace(w[j])
    ensures Concat(SplitFrom(s, w)) == w + NonSpace(s)
    decreases |s|
  {
    if s == [] {
    } else if IsSpace(s[0]) {
      ConcatSplitFrom(s[1..], []);
      if w != [] {
        assert Concat([w] + SplitFrom(s[1..], [])) == w + Concat(SplitFrom(s[1..], []));
      }
    } else {
      ConcatSplitFrom(s[1..], w + [s[0]]);
      assert w + [s[0]] + NonSpace(s[1..]) == w + ([s[0]] + NonSpace(s[1..]));
    }
  }

  /** split() drops exactly the whitespace of s: the words together are its other characters. */
  lemma SplitKeepsNonSpace(s: string)
    ensures Concat(Split(s)) == NonSpace(s)
  {
    ConcatSplitFrom(s, []);
  }

  /** A run of non-whitespace characters extends the word being read. */
  lemma {:induction false} SplitFromWord(v: string, rest: string, w: string)
    requires forall j :: 0 <= j < |w| ==> !IsSpace(w[j])
    requires forall j :: 0 <= j < |v| ==> !IsSpace(v[j])
    ensures SplitFrom(v + rest, w) == SplitFrom(rest, w + v)
    decreases |v|
  {
    if v == [] {
      assert v + rest == rest;
      assert w + v == w;
    } else {
      assert (v + rest)[0] == v[0];
      assert (v + rest)[1..] == v[1..] + rest;
      SplitFromWord(v[1..], rest, w + [v[0]]);
      assert w + [v[0]] + v[1..] == w + v;
    }
  }

  /** A whitespace character ends the word being read and starts a fresh scan. */
  lemma {:induction false} SplitFromAtSpace(a: string, c: char, b: string, w: string)
    requires forall j :: 0 <= j < |w| ==> !IsSpace(w[j])
    requires IsSpace(c)
    ensures SplitFrom(a + [c] + b, w) == SplitFrom(a, w) + SplitFrom(b, [])
    decreases |a|
  {
    var s := a + [c] + b;
    if a == [] {
      assert s == [c] + b;
      assert s[1..] == b;
    } else {
      assert s[0] == a[0];
      assert s[1..] == a[1..] + [c] + b;
      if IsSpace(a[0]) {
        SplitFromAtSpace(a[1..], c, b, []);
      } else {
        SplitFromAtSpace(a[1..], c, b, w + [a[0]]);
      }
    }
  }

  /** split() cuts at every whitespace character: the words on either side are split apart.
      With SplitWord and `Split([]) == []` this determines split() on every string. */
  lemma SplitAtSpace(a: string, c: char, b: string)
    requires IsSpace(c)
    ensures Split(a + [c] + b) == Split(a) + Split(b)
  {
    SplitFromAtSpace(a, c, b, []);
  }

  /** A word on its own splits into itself. */
  lemma SplitWord(w: string)
    requires IsWord(w)
    ensures Split(w) == [w]
  {
    SplitFromWord(w, [], []);
    assert w + [] == w;
    assert [] + w == w;
  }

  /** Splitting words joined by single spaces gives back the words. */
  lemma {:induction false} SplitJoin(ws: seq<string>)
    requires AllWords(ws)
    ensures Split(JoinSpaces(ws)) == ws
  {
    if ws == [] {
    } else if |ws| == 1 {
      SplitFromWord(ws[0], [], []);
      assert ws[0] + [] == ws[0];
      assert [] + ws[0] == ws[0];
    } else {
      var tail := JoinSpaces(ws[1..]);
      assert AllWords(ws[1..]) by {
        forall i | 0 <= i < |ws[1..]| ensures IsWord(ws[1..][i]) {
          assert ws[1..][i] == ws[i + 1];
        }
      }
      SplitJoin(ws[1..]);
      assert IsWord(ws[0]);
      assert ws[0] + " " + tail == ws[0] + (" " + tail);
      SplitFromWord(ws[0], " " + tail, []);
      assert [] + ws[0] == ws[0];
      assert (" " + tail)[0] == ' ';
      assert (" " + tail)[1..] == tail;
    }
  }

  /** Words joined by single spaces contain whitespace only in the separators. */
  lemma {:induction false} JoinSpacesChars(ws: seq<string>, k: int)
    requires AllWords(ws)
    requires 0 <= k < |JoinSpaces(ws)|
    ensures JoinSpaces(ws)[k] == ' ' || !IsSpace(JoinSpaces(ws)[k])
  {
    if |ws| == 1 {
      assert IsWord(ws[0]);
    } else if |ws| > 1 {
      assert IsWord(ws[0]);
      var tail := JoinSpaces(ws[1..]);
      assert JoinSpaces(ws) == ws[0] + " " + tail;
      if k > |ws[0]| {
        assert AllWords(ws[1..]) by {
          forall i | 0 <= i < |ws[1..]| ensures IsWord(ws[1..][i]) {
            assert ws[1..][i] == ws[i + 1];
          }
        }
        JoinSpacesChars(ws[1..], k - |ws[0]| - 1);
        assert JoinSpaces(ws)[k] == tail[k - |ws[0]| - 1];
      }
    }
  }
}
