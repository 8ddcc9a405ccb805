/**
  The ASCII meaning of the Python string methods the cleaner relies on:
  `str.isspace` (as used by `strip()` and `split()` without arguments),
  `str.isdigit`, `str.lower` and `str.capitalize`. Characters outside ASCII
  are never whitespace or digits and are left unchanged by case mapping.
 */
module Text {

  /** Whitespace as Python sees it within ASCII: tab, line feed, vertical
      tab, form feed, carriage return, the four information separators
      0x1C-0x1F, and space. */
  predicate IsSpace(c: char) {
    var n := c as int;
    9 <= n <= 13 || 28 <= n <= 32
  }

  predicate IsDigit(c: char) { '0' <= c <= '9' }

  predicate IsUpper(c: char) { 'A' <= c <= 'Z' }

  predicate IsLower(c: char) { 'a' <= c <= 'z' }

  predicate AllSpace(s: string) {
    forall i :: 0 <= i < |s| ==> IsSpace(s[i])
  }

  /** Python's `s.isdigit()`: non-empty and every character a decimal digit. */
  predicate IsDigits(s: string)
    ensures IsDigits(s) ==> NoEdgeSpace(s)
  {
    |s| > 0 && forall i :: 0 <= i < |s| ==> IsDigit(s[i])
  }

  /** Neither end of `s` is whitespace. */
  predicate NoEdgeSpace(s: string) {
    s == [] || (!IsSpace(s[0]) && !IsSpace(s[|s| - 1]))
  }

  /** A word as `str.split()` yields it: non-empty, no whitespace inside. */
  predicate IsWord(w: string) {
    |w| > 0 && forall i :: 0 <= i < |w| ==> !IsSpace(w[i])
  }

  predicate HasNoUpper(s: string) {
    forall i :: 0 <= i < |s| ==> !IsUpper(s[i])
  }

  /** What `capitalize` leaves behind: the first character is not a
      lower-case letter and no later character is an upper-case letter. */
  predicate Capitalized(w: string) {
    |w| > 0 && !IsLower(w[0]) && HasNoUpper(w[1..])
  }

  /** Words joined by single spaces: every whitespace character of `r` is
      a plain space with a non-space character on each side (so there is
      no whitespace at either end and no doubled space). */
  predicate SingleSpaced(r: string) {
    forall i :: 0 <= i < |r| && IsSpace(r[i]) ==>
      r[i] == ' ' && 0 < i < |r| - 1 && !IsSpace(r[i - 1]) && !IsSpace(r[i + 1])
  }

  // ---------------------------------------------------------------- case

  function ToLower(c: char): (r: char)
    ensures !IsUpper(r)
    ensures IsUpper(c) ==> IsLower(r) && r as int == c as int + 32
    ensures !IsUpper(c) ==> r == c
  {
    if IsUpper(c) then (c as int + 32) as char else c
  }

  function ToUpper(c: char): (r: char)
    ensures !IsLower(r)
    ensures IsLower(c) ==> IsUpper(r) && r as int == c as int - 32
    ensures !IsLower(c) ==> r == c
  {
    if IsLower(c) then (c as int - 32) as char else c
  }

  /** Python's `s.lower()` on ASCII. */
  function Lower(s: string): (r: string)
    ensures |r| == |s|
    ensures forall i :: 0 <= i < |s| ==> r[i] == ToLower(s[i])
  {
    seq(|s|, i requires 0 <= i < |s| => ToLower(s[i]))
  }

  /** Python's `w.capitalize()` on ASCII: first character upper case, the
      rest lower case. */
  function Capitalize(w: string): (r: string)
    ensures |r| == |w|
  {
    if w == [] then [] else [ToUpper(w[0])] + Lower(w[1..])
  }

  lemma LowerOfUpper(c: char)
    ensures ToLower(ToUpper(c)) == ToLower(c)
  {
  }

  /** `capitalize()` changes only the case of letters, and leaves the
      first character not lower case and the rest not upper case. */
  lemma CapitalizeLetters(w: string)
    ensures Lower(Capitalize(w)) == Lower(w)
    ensures w != [] ==> Capitalized(Capitalize(w))
  {
    if w != [] {
      var r := Capitalize(w);
      var t := Lower(w[1..]);
      assert r == [ToUpper(w[0])] + t;
      LowerProperties(w[1..]);
      assert r[1..] == t;
      LowerOfUpper(w[0]);
      forall i | 0 <= i < |w| ensures ToLower(r[i]) == ToLower(w[i]) {
        if i > 0 {
          assert r[i] == t[i - 1] == ToLower(w[1..][i - 1]);
        }
      }
    }
  }

  /** The case-insensitive letters and the capitalized shape pin down
      `capitalize()`: no other text has both. */
  lemma CapitalizeUnique(w: string, v: string)
    requires Capitalized(v) && Lower(v) == Lower(w)
    ensures v == Capitalize(w)
  {
    var r := Capitalize(w);
    CapitalizeLetters(w);
    assert |v| == |w|;
    forall i | 0 <= i < |v| ensures v[i] == r[i] {
      assert ToLower(v[i]) == ToLower(w[i]) == ToLower(r[i]);
      if i > 0 {
        assert v[1..][i - 1] == v[i] && r[1..][i - 1] == r[i];
      }
    }
  }

  lemma LowerProperties(s: string)
    ensures HasNoUpper(Lower(s))
    ensures Lower(Lower(s)) == Lower(s)
    ensures NoEdgeSpace(s) ==> NoEdgeSpace(Lower(s))
  {
  }

  lemma CapitalizeProperties(w: string)
    requires IsWord(w)
    ensures IsWord(Capitalize(w))
    ensures Capitalized(Capitalize(w))
    ensures Capitalize(Capitalize(w)) == Capitalize(w)
  {
    var r := Capitalize(w);
    LowerProperties(w[1..]);
    assert r[1..] == Lower(w[1..]);
    assert Capitalize(r) == [ToUpper(r[0])] + Lower(r[1..]);
  }

  // --------------------------------------------------------------- strip

  /** Python's `s.lstrip()`: drop leading whitespace. */
  function TrimLeft(s: string): (r: string)
    ensures |r| <= |s|
    ensures r == [] || !IsSpace(r[0])
  {
    if s != [] && IsSpace(s[0]) then TrimLeft(s[1..]) else s
  }

  /** `lstrip()` removes only a whitespace prefix. */
  lemma {:induction false} TrimLeftSuffix(s: string)
    ensures TrimLeft(s) == s[|s| - |TrimLeft(s)|..]
    ensures AllSpace(s[..|s| - |TrimLeft(s)|])
  {
    if s != [] && IsSpace(s[0]) {
      TrimLeftSuffix(s[1..]);
      var k := |s| - |TrimLeft(s)|;
      assert s[1..][..k - 1] == s[1..k];
      assert forall i :: 1 <= i < k ==> s[1..k][i - 1] == s[i];
    }
  }

  /** Python's `s.rstrip()`: drop trailing whitespace. */
  function TrimRight(s: string): (r: string)
    ensures |r| <= |s| && r == s[..|r|]
    ensures r == [] || !IsSpace(r[|r| - 1])
    ensures AllSpace(s[|r|..])
  {
    if s != [] && IsSpace(s[|s| - 1]) then TrimRight(s[..|s| - 1]) else s
  }

  /** Python's `s.strip()`: drop whitespace at both ends. */
  function Strip(s: string): (r: string)
    ensures |r| <= |s| && NoEdgeSpace(r)
  {
    TrimRight(TrimLeft(s))
  }

  /** `strip()` keeps a middle slice of its input whose ends are not
      whitespace, and drops only whitespace around it. */
  lemma StripProperties(s: string)
    ensures NoEdgeSpace(Strip(s))
    ensures exists i :: (0 <= i <= |s| - |Strip(s)| && Strip(s) == s[i..i + |Strip(s)|]
                         && AllSpace(s[..i]) && AllSpace(s[i + |Strip(s)|..]))
    ensures Strip(s) == [] <==> AllSpace(s)
  {
    var t := TrimLeft(s);
    var r := TrimRight(t);
    var i := |s| - |t|;
    TrimLeftSuffix(s);
    assert r == s[i..i + |r|];
    assert AllSpace(s[..i]);
    assert s[i + |r|..] == t[|r|..];
    if r == [] {
      assert t == [];
      assert s[..i] == s;
    }
  }

  /** Stripping text that has no edge whitespace changes nothing. */
  lemma StripTrimmed(s: string)
    requires NoEdgeSpace(s)
    ensures Strip(s) == s
  {
  }

  /** `lstrip()` drops exactly a whitespace prefix in front of text that
      does not open with whitespace. */
  lemma {:induction false} TrimLeftPadded(a: string, t: string)
    requires AllSpace(a) && (t == [] || !IsSpace(t[0]))
    ensures TrimLeft(a + t) == t
  {
    if a == [] {
      assert a + t == t;
    } else {
      assert (a + t)[1..] == a[1..] + t;
      TrimLeftPadded(a[1..], t);
    }
  }

  /** `rstrip()` drops exactly a whitespace suffix behind text that does
      not end in whitespace. */
  lemma {:induction false} TrimRightPadded(t: string, b: string)
    requires AllSpace(b) && (t == [] || !IsSpace(t[|t| - 1]))
    ensures TrimRight(t + b) == t
  {
    if b == [] {
      assert t + b == t;
    } else {
      var bl := b[..|b| - 1];
      assert (t + b)[..|t + b| - 1] == t + bl;
      TrimRightPadded(t, bl);
    }
  }

  /** Whitespace around text without edge whitespace is what `strip()`
      removes, and all it removes. */
  lemma StripPadded(a: string, t: string, b: string)
    requires AllSpace(a) && AllSpace(b) && NoEdgeSpace(t)
    ensures Strip(a + t + b) == t
  {
    assert a + t + b == a + (t + b);
    if t == [] {
      var s := a + t + b;
      assert s == a + b;
      assert AllSpace(s) by {
        forall i | 0 <= i < |s| ensures IsSpace(s[i]) {
          if i < |a| { assert s[i] == a[i]; } else { assert s[i] == b[i - |a|]; }
        }
      }
      StripProperties(s);
    } else {
      TrimLeftPadded(a, t + b);
      TrimRightPadded(t, b);
    }
  }

  lemma StripIdempotent(s: string)
    ensures Strip(Strip(s)) == Strip(s)
  {
    StripProperties(s);
    StripTrimmed(Strip(s));
  }

  // --------------------------------------------------------------- split

  /** The longest prefix of `s` that holds no whitespace. */
  function WordPrefix(s: string): (w: string)
    ensures |w| <= |s|
    ensures s != [] && !IsSpace(s[0]) ==> |w| > 0
  {
    if s == [] || IsSpace(s[0]) then [] else [s[0]] + WordPrefix(s[1..])
  }

  lemma {:induction false} WordPrefixProperties(s: string)
    ensures WordPrefix(s) == s[..|WordPrefix(s)|]
    ensures forall i :: 0 <= i < |WordPrefix(s)| ==> !IsSpace(WordPrefix(s)[i])
  {
    if s != [] && !IsSpace(s[0]) {
      WordPrefixProperties(s[1..]);
      var w := WordPrefix(s[1..]);
      assert WordPrefix(s) == [s[0]] + w;
    }
  }

  /** Python's `s.split()` without a separator: the maximal whitespace-free
      runs of `s`, in order. */
  function Split(s: string): (ws: seq<string>)
    ensures |ws| <= |s|
    decreases |s|
  {
    var t := TrimLeft(s);
    if t == [] then [] else
      var w := WordPrefix(t);
      [w] + Split(t[|w|..])
  }

  /** Everything `split()` yields is a word. */
  lemma {:induction false} SplitWords(s: string)
    ensures forall i :: 0 <= i < |Split(s)| ==> IsWord(Split(s)[i])
    decreases |s|
  {
    var t := TrimLeft(s);
    if t != [] {
      var w := WordPrefix(t);
      WordPrefixProperties(t);
      SplitWords(t[|w|..]);
      assert Split(s) == [w] + Split(t[|w|..]);
    }
  }

  /** `" ".join(ws)`. */
  function JoinSpace(ws: seq<string>): (r: string)
    ensures ws != [] ==> |r| >= |ws[0]| && r[..|ws[0]|] == ws[0]
  {
    if ws == [] then [] else if |ws| == 1 then ws[0] else ws[0] + " " + JoinSpace(ws[1..])
  }

  lemma {:induction false} WordPrefixOfWord(w: string, tail: string)
    requires forall i :: 0 <= i < |w| ==> !IsSpace(w[i])
    requires tail == [] || IsSpace(tail[0])
    ensures WordPrefix(w + tail) == w
  {
    if w == [] {
      assert w + tail == tail;
    } else {
      assert (w + tail)[1..] == w[1..] + tail;
      WordPrefixOfWord(w[1..], tail);
    }
  }

  lemma SplitLeadingSpace(c: char, s: string)
    requires IsSpace(c)
    ensures Split([c] + s) == Split(s)
  {
    assert ([c] + s)[1..] == s;
  }

  lemma {:induction false} SplitEmpty(s: string)
    ensures Split(s) == [] <==> AllSpace(s)
  {
    var t := TrimLeft(s);
    TrimLeftSuffix(s);
    if t == [] {
      assert s[..|s|] == s;
    } else {
      assert !IsSpace(s[|s| - |t|]);
    }
  }

  /** The word prefix stops only at whitespace or at the end. */
  lemma {:induction false} WordPrefixMaximal(s: string)
    ensures |WordPrefix(s)| < |s| ==> IsSpace(s[|WordPrefix(s)|])
  {
    if s != [] && !IsSpace(s[0]) {
      WordPrefixMaximal(s[1..]);
    }
  }

  /** A word followed by nothing or by whitespace is split off first. */
  lemma SplitWordThen(w: string, tail: string)
    requires IsWord(w)
    requires tail == [] || IsSpace(tail[0])
    ensures Split(w + tail) == [w] + Split(tail)
  {
    var j := w + tail;
    assert j[0] == w[0];
    assert TrimLeft(j) == j;
    WordPrefixOfWord(w, tail);
    assert j[|w|..] == tail;
  }

  /** A word on its own splits into itself. */
  lemma SplitWord(w: string)
    requires IsWord(w)
    ensures Split(w) == [w]
  {
    SplitWordThen(w, []);
    assert w + [] == w;
  }

  /** Leading whitespace before the separator: drop it on both sides. */
  lemma SplitAtSpaceSkip(h: char, x: string, c: char, y: string)
    requires IsSpace(c) && IsSpace(h)
    requires Split(x + [c] + y) == Split(x) + Split(y)
    ensures Split([h] + x + [c] + y) == Split([h] + x) + Split(y)
  {
    var t := x + [c] + y;
    assert [h] + x + [c] + y == [h] + t;
    SplitLeadingSpace(h, t);
    SplitLeadingSpace(h, x);
  }

  /** Consing a word onto a concatenation of splits. */
  lemma ConsAppend(w: string, a: seq<string>, p: seq<string>, q: seq<string>)
    requires a == p + q
    ensures [w] + a == ([w] + p) + q
  {
  }

  /** A word opening `x`, followed by whitespace or by the separator. */
  lemma SplitAtSpaceWord(w: string, rest: string, c: char, y: string)
    requires IsSpace(c) && IsWord(w) && (rest == [] || IsSpace(rest[0]))
    requires Split(rest + [c] + y) == Split(rest) + Split(y)
    ensures Split(w + rest + [c] + y) == Split(w + rest) + Split(y)
  {
    var t := rest + [c] + y;
    assert t[0] == if rest == [] then c else rest[0];
    assert w + rest + [c] + y == w + t;
    SplitWordThen(w, rest);
    SplitWordThen(w, t);
    ConsAppend(w, Split(t), Split(rest), Split(y));
  }

  /** Any whitespace character separates: the words on either side of it
      are split independently, so a run of whitespace of any length and
      kind acts as one separator. */
  lemma {:induction false} SplitAtSpace(x: string, c: char, y: string)
    requires IsSpace(c)
    ensures Split(x + [c] + y) == Split(x) + Split(y)
    decreases |x|
  {
    if x == [] {
      assert x + [c] + y == [c] + y;
      SplitLeadingSpace(c, y);
    } else if IsSpace(x[0]) {
      SplitAtSpace(x[1..], c, y);
      SplitAtSpaceSkip(x[0], x[1..], c, y);
      assert x == [x[0]] + x[1..];
    } else {
      var w := WordPrefix(x);
      WordPrefixProperties(x);
      WordPrefixMaximal(x);
      var rest := x[|w|..];
      assert x == w + rest;
      SplitAtSpace(rest, c, y);
      SplitAtSpaceWord(w, rest, c, y);
    }
  }

  /** Splitting words joined by single spaces gives the words back. */
  lemma {:induction false} SplitJoin(ws: seq<string>)
    requires forall i :: 0 <= i < |ws| ==> IsWord(ws[i])
    ensures Split(JoinSpace(ws)) == ws
  {
    if ws == [] {
    } else if |ws| == 1 {
      SplitWordThen(ws[0], []);
      assert ws[0] + [] == ws[0];
    } else {
      var rest := JoinSpace(ws[1..]);
      assert JoinSpace(ws) == ws[0] + (" " + rest);
      SplitWordThen(ws[0], " " + rest);
      SplitLeadingSpace(' ', rest);
      SplitJoin(ws[1..]);
      assert ws == [ws[0]] + ws[1..];
    }
  }

  /** A join of words starts with the first word's first character and ends
      with the last word's last character. */
  lemma JoinEnds(ws: seq<string>)
    requires forall i :: 0 <= i < |ws| ==> IsWord(ws[i])
    requires ws != []
    ensures |JoinSpace(ws)| > 0
    ensures !IsSpace(JoinSpace(ws)[0])
    ensures !IsSpace(JoinSpace(ws)[|JoinSpace(ws)| - 1])
  {
    if |ws| > 1 {
      JoinEnds(ws[1..]);
    }
  }

  /** Words joined by single spaces are single-spaced. */
  lemma {:induction false} JoinSingleSpaced(ws: seq<string>)
    requires forall i :: 0 <= i < |ws| ==> IsWord(ws[i])
    ensures SingleSpaced(JoinSpace(ws))
  {
    if |ws| > 1 {
      var w := ws[0];
      var rest := JoinSpace(ws[1..]);
      var j := w + " " + rest;
      JoinSingleSpaced(ws[1..]);
      JoinEnds(ws[1..]);
      forall i | 0 <= i < |j| && IsSpace(j[i])
        ensures j[i] == ' ' && 0 < i < |j| - 1 && !IsSpace(j[i - 1]) && !IsSpace(j[i + 1])
      {
        if i == |w| {
          assert j[i - 1] == w[|w| - 1];
          assert j[i + 1] == rest[0];
        } else if i > |w| {
          var k := i - |w| - 1;
          assert j[i] == rest[k];
          if k == 0 {
            assert false;
          }
          assert j[i - 1] == rest[k - 1];
          assert j[i + 1] == rest[k + 1];
        }
      }
    }
  }

  lemma SingleSpacedNoEdge(r: string)
    requires SingleSpaced(r)
    ensures NoEdgeSpace(r)
  {
    if r != [] {
      assert !IsSpace(r[0]);
      assert !IsSpace(r[|r| - 1]);
    }
  }
}
