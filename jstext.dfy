/** The parts of JavaScript's string library the backend relies on: the
    `\s` character class (the same set `String.prototype.trim` removes),
    `trim`, `split(/\s+/)`, `Array.prototype.join` and `indexOf`. Strings are
    sequences of code points; every character these functions treat
    specially lies in the Basic Multilingual Plane. */
module JsText {

  /** WhiteSpace and LineTerminator of ECMAScript: what `\s` matches and
      what `trim()` strips. */
  predicate IsSpace(c: char) {
    c == '\t' || c == '\n' || c == '\U{000B}' || c == '\U{000C}' || c == '\r'
    || c == ' ' || c == '\U{00A0}' || c == '\U{1680}'
    || ('\U{2000}' <= c <= '\U{200A}')
    || c == '\U{2028}' || c == '\U{2029}' || c == '\U{202F}' || c == '\U{205F}'
    || c == '\U{3000}' || c == '\U{FEFF}'
  }

  /** Every character is white space (vacuously true of ""). */
  predicate IsBlank(s: string) {
    forall i :: 0 <= i < |s| ==> IsSpace(s[i])
  }

  /** No character is white space. */
  predicate NoSpace(s: string) {
    forall i :: 0 <= i < |s| ==> !IsSpace(s[i])
  }

  /** Dropping one more leading white-space character keeps the
      trimStart promise. */
  lemma {:induction false} TrimStartStep(s: string, r: string)
    requires s != [] && IsSpace(s[0])
    requires |r| <= |s| - 1 && r == s[1..][|s| - 1 - |r|..]
    requires IsBlank(s[1..][..|s| - 1 - |r|])
    ensures r == s[|s| - |r|..] && IsBlank(s[..|s| - |r|])
  {
    var n := |s| - |r|;
    assert s[1..][n - 1..] == s[n..];
    forall i | 0 <= i < n
      ensures IsSpace(s[..n][i])
    {
      if i > 0 {
        assert s[..n][i] == s[1..][..n - 1][i - 1];
      }
    }
  }

  /** Dropping one more trailing white-space character keeps the trimEnd
      promise. */
  lemma {:induction false} TrimEndStep(s: string, r: string)
    requires s != [] && IsSpace(s[|s| - 1])
    requires |r| <= |s| - 1 && r == s[..|s| - 1][..|r|]
    requires IsBlank(s[..|s| - 1][|r|..])
    ensures r == s[..|r|] && IsBlank(s[|r|..])
  {
    var n := |r|;
    assert s[..|s| - 1][..n] == s[..n];
    forall i | 0 <= i < |s| - n
      ensures IsSpace(s[n..][i])
    {
      if i < |s| - 1 - n {
        assert s[n..][i] == s[..|s| - 1][n..][i];
      }
    }
  }

  /** `s.trimStart()`: the suffix left after the leading white space. */
  function TrimStart(s: string): (r: string)
    ensures |r| <= |s| && r == s[|s| - |r|..]
    ensures IsBlank(s[..|s| - |r|])
    ensures r == [] || !IsSpace(r[0])
  {
    if s != [] && IsSpace(s[0]) then
      var r := TrimStart(s[1..]);
      TrimStartStep(s, r);
      r
    else s
  }

  /** `s.trimEnd()`: the prefix left after the trailing white space. */
  function TrimEnd(s: string): (r: string)
    ensures |r| <= |s| && r == s[..|r|]
    ensures IsBlank(s[|r|..])
    ensures r == [] || !IsSpace(r[|r| - 1])
  {
    if s != [] && IsSpace(s[|s| - 1]) then
      var r := TrimEnd(s[..|s| - 1]);
      TrimEndStep(s, r);
      r
    else s
  }

  /** `s.trim()`. */
  function Trim(s: string): string {
    TrimEnd(TrimStart(s))
  }

  /** The trimmed string neither starts nor ends with white space. */
  lemma {:induction false} TrimEnds(s: string)
    ensures Trim(s) == [] || (!IsSpace(Trim(s)[0]) && !IsSpace(Trim(s)[|Trim(s)| - 1]))
  {
    var t := TrimStart(s);
    var r := TrimEnd(t);
    if r != [] {
      assert r[0] == t[0];
    }
  }

  /** A string trims to "" exactly when it is blank. */
  lemma {:induction false} TrimEmptyIffBlank(s: string)
    ensures Trim(s) == [] <==> IsBlank(s)
  {
    var t := TrimStart(s);
    assert s[..|s|] == s;
    assert t[0..] == t;
    assert t != [] ==> t[0] == s[|s| - |t|];
  }

  /** Trimming twice is trimming once. */
  lemma {:induction false} TrimIdempotent(s: string)
    ensures Trim(Trim(s)) == Trim(s)
  {
    TrimEnds(s);
    var r := Trim(s);
    if r != [] {
      assert TrimStart(r) == r;
      assert TrimEnd(r) == r;
    }
  }

  /** The longest prefix free of white space: the next token of a split. */
  function TakeWord(s: string): (w: string)
    ensures |w| <= |s| && w == s[..|w|]
    ensures NoSpace(w)
    ensures |w| == |s| || IsSpace(s[|w|])
  {
    if s == [] || IsSpace(s[0]) then [] else [s[0]] + TakeWord(s[1..])
  }

  /** `s.split(/\s+/)`: the pieces between maximal runs of white space.
      Leading white space yields a first token "", trailing white space a
      last token "", and "" itself splits to [""]. */
  function Split(s: string): (ts: seq<string>)
    ensures |ts| >= 1
    ensures forall i :: 0 <= i < |ts| ==> NoSpace(ts[i])
    decreases |s|
  {
    var w := TakeWord(s);
    var rest := s[|w|..];
    if rest == [] then [w]
    else
      var u := TrimStart(rest);
      assert IsSpace(rest[0]);
      [w] + Split(u)
  }

  /** The first token of a split is the leading word, so it is "" only
      when `s` is "" or starts with white space. */
  lemma {:induction false} SplitHead(s: string)
    ensures Split(s)[0] == TakeWord(s)
    ensures TakeWord(s) == [] ==> s == [] || IsSpace(s[0])
  {
    var w := TakeWord(s);
    if w == [] && s != [] {
      assert s[0] == s[|w|..][0];
    }
  }

  /** Only the first and the last token of a split can be "": the first
      one only when `s` is "" or starts with white space. */
  lemma {:induction false} SplitInteriorNonEmpty(s: string)
    ensures forall i :: 0 < i < |Split(s)| - 1 ==> Split(s)[i] != []
    ensures Split(s)[0] == [] ==> s == [] || IsSpace(s[0])
    decreases |s|
  {
    SplitHead(s);
    var ts := Split(s);
    var w := TakeWord(s);
    var rest := s[|w|..];
    if rest != [] {
      var u := TrimStart(rest);
      assert IsSpace(rest[0]);
      var su := Split(u);
      assert ts == [w] + su;
      assert |su| >= 2 ==> u != [] by {
        assert Split([]) == [[]];
      }
      SplitInteriorNonEmpty(u);
      SplitHead(u);
      InteriorCons(w, su, ts);
    }
  }

  /** Putting a token in front keeps interior tokens non-empty when the old
      first token becomes interior and is non-empty. */
  lemma {:induction false} InteriorCons(w: string, su: seq<string>, ts: seq<string>)
    requires ts == [w] + su
    requires |su| >= 2 ==> su[0] != []
    requires forall i :: 0 < i < |su| - 1 ==> su[i] != []
    ensures forall i :: 0 < i < |ts| - 1 ==> ts[i] != []
  {
    forall k | 0 < k < |ts| - 1
      ensures ts[k] != []
    {
      assert ts[k] == su[k - 1];
    }
  }

  /** `ts.join(sep)`. */
  function Join(ts: seq<string>, sep: string): string {
    if |ts| == 0 then []
    else if |ts| == 1 then ts[0]
    else ts[0] + sep + Join(ts[1..], sep)
  }

  /** A white-space-free word followed by white space (or nothing) is the
      whole next token. */
  lemma {:induction false} TakeWordBefore(w: string, x: string)
    requires NoSpace(w)
    requires x == [] || IsSpace(x[0])
    ensures TakeWord(w + x) == w
    decreases |w|
  {
    if w != [] {
      assert (w + x)[1..] == w[1..] + x;
      assert !IsSpace(w[0]);
      TakeWordBefore(w[1..], x);
    } else {
      assert w + x == x;
    }
  }

  /** The first element of a join is its prefix. */
  lemma {:induction false} JoinStartsWith(ts: seq<string>, sep: string)
    requires |ts| >= 1
    ensures |ts[0]| <= |Join(ts, sep)| && Join(ts, sep)[..|ts[0]|] == ts[0]
  {
    if |ts| > 1 {
      assert Join(ts, sep) == ts[0] + (sep + Join(ts[1..], sep));
    }
  }

  /** One step of a split: a word, one space, then text that does not
      start with white space. */
  lemma {:induction false} SplitStep(w: string, tail: string)
    requires NoSpace(w)
    requires tail == [] || !IsSpace(tail[0])
    ensures Split(w + (" " + tail)) == [w] + Split(tail)
  {
    var s := w + (" " + tail);
    TakeWordBefore(w, " " + tail);
    assert s[|w|..] == " " + tail;
    assert (" " + tail)[1..] == tail;
    assert TrimStart(" " + tail) == tail;
  }

  /** A word free of white space splits to itself. */
  lemma {:induction false} SplitWord(w: string)
    requires NoSpace(w)
    ensures Split(w) == [w]
  {
    assert w + [] == w;
    TakeWordBefore(w, []);
  }

  /** Splitting the space-join of tokens gives the tokens back, provided
      they hold no white space and none but the first and the last is "". */
  lemma {:induction false} SplitJoin(g: seq<string>)
    requires |g| >= 1
    requires forall i :: 0 <= i < |g| ==> NoSpace(g[i])
    requires forall i :: 0 < i < |g| - 1 ==> g[i] != []
    ensures Split(Join(g, " ")) == g
    decreases |g|
  {
    if |g| == 1 {
      SplitWord(g[0]);
    } else {
      var tail := Join(g[1..], " ");
      assert Join(g, " ") == g[0] + (" " + tail);
      assert tail == [] || !IsSpace(tail[0]) by {
        JoinStartsWith(g[1..], " ");
        if |g| > 2 {
          assert g[1] != [] && !IsSpace(g[1][0]);
          assert tail[0] == g[1][0];
        } else {
          assert tail == g[1];
        }
      }
      calc {
        Split(Join(g, " "));
        Split(g[0] + (" " + tail));
        { SplitStep(g[0], tail); }
        [g[0]] + Split(tail);
        { SplitJoin(g[1..]); }
        [g[0]] + g[1..];
      }
    }
  }

  /** Trimming the start of a blank string leaves nothing. */
  lemma {:induction false} BlankTrimStart(s: string)
    requires IsBlank(s)
    ensures TrimStart(s) == []
  {
    if s != [] {
      assert IsBlank(s[1..]) by {
        forall i | 0 <= i < |s| - 1 ensures IsSpace(s[1..][i]) {
          assert s[1..][i] == s[i + 1];
        }
      }
      BlankTrimStart(s[1..]);
    }
  }

  /** A blank string splits into empty tokens only. */
  lemma {:induction false} BlankSplit(s: string)
    requires IsBlank(s)
    ensures forall i :: 0 <= i < |Split(s)| ==> Split(s)[i] == []
  {
    if s != [] {
      assert TakeWord(s) == [] && s[0..] == s;
      BlankTrimStart(s);
      assert Split([]) == [[]];
      assert Split(s) == [[], []];
    }
  }

  /** A string with a non-white-space character has a non-empty token. */
  lemma {:induction false} NonBlankSplit(s: string)
    requires !IsBlank(s)
    ensures exists i :: 0 <= i < |Split(s)| && Split(s)[i] != []
  {
    var w := TakeWord(s);
    if w == [] {
      assert IsSpace(s[0]);
      var u := TrimStart(s);
      assert s[..|s|] == s;
      assert u != [] && !IsSpace(u[0]);
      assert Split(s) == [w] + Split(u);
      assert Split(u)[0] == TakeWord(u);
      assert Split(s)[1] != [];
    } else {
      assert Split(s)[0] == w;
    }
  }

  /** The concatenation of two strings is blank exactly when both are. */
  lemma {:induction false} BlankConcat(a: string, b: string)
    ensures IsBlank(a + b) <==> IsBlank(a) && IsBlank(b)
  {
    if IsBlank(a + b) {
      assert forall i :: 0 <= i < |a| ==> a[i] == (a + b)[i];
      assert forall i :: 0 <= i < |b| ==> b[i] == (a + b)[|a| + i];
    }
  }

  /** The space-join of white-space-free tokens is blank exactly when every
      token is "". */
  lemma {:induction false} JoinBlank(g: seq<string>)
    requires forall i :: 0 <= i < |g| ==> NoSpace(g[i])
    ensures IsBlank(Join(g, " ")) <==> forall i :: 0 <= i < |g| ==> g[i] == []
    decreases |g|
  {
    if |g| == 1 {
      assert g[0] != [] ==> !IsSpace(g[0][0]);
    } else if |g| > 1 {
      var tail := Join(g[1..], " ");
      assert Join(g, " ") == g[0] + (" " + tail);
      BlankConcat(g[0], " " + tail);
      BlankConcat(" ", tail);
      assert g[0] != [] ==> !IsSpace(g[0][0]);
      JoinBlank(g[1..]);
      assert (forall i :: 0 <= i < |g| ==> g[i] == [])
        <==> g[0] == [] && forall i :: 0 <= i < |g| - 1 ==> g[1..][i] == [];
    }
  }

  /** `needle` occurs in `hay` starting at index `i`. */
  predicate OccursAt(hay: string, needle: string, i: int) {
    0 <= i && i + |needle| <= |hay| && hay[i..i + |needle|] == needle
  }

  /** `needle` is a substring of `hay`. */
  predicate Contains(hay: string, needle: string) {
    exists i :: 0 <= i <= |hay| && OccursAt(hay, needle, i)
  }

  /** `hay.indexOf(needle, from)`: the first occurrence at or after `from`,
      or -1. */
  function IndexOfFrom(hay: string, needle: string, from: nat): (r: int)
    ensures r == -1 || (from <= r && OccursAt(hay, needle, r))
    ensures r == -1 ==> forall i :: from <= i ==> !OccursAt(hay, needle, i)
    ensures r != -1 ==> forall i :: from <= i < r ==> !OccursAt(hay, needle, i)
    decreases |hay| - from
  {
    if from + |needle| > |hay| then -1
    else if hay[from..from + |needle|] == needle then from
    else IndexOfFrom(hay, needle, from + 1)
  }

  /** `hay.indexOf(needle)`. */
  function IndexOf(hay: string, needle: string): int {
    IndexOfFrom(hay, needle, 0)
  }

  /** `indexOf` reports -1 exactly when the needle does not occur, and
      otherwise the first place it does. */
  lemma {:induction false} IndexOfSpec(hay: string, needle: string)
    ensures IndexOf(hay, needle) == -1 <==> !Contains(hay, needle)
    ensures IndexOf(hay, needle) != -1 ==>
      OccursAt(hay, needle, IndexOf(hay, needle))
      && forall i :: 0 <= i < IndexOf(hay, needle) ==> !OccursAt(hay, needle, i)
  {
    if IndexOf(hay, needle) != -1 {
      assert OccursAt(hay, needle, IndexOf(hay, needle));
    }
  }

  /** Every string contains itself. */
  lemma {:induction false} ContainsSelf(s: string)
    ensures Contains(s, s)
  {
    assert OccursAt(s, s, 0);
  }

  /** Where the `i`-th piece of `ts.join(sep)` starts. */
  function JoinOffset(ts: seq<string>, sep: string, i: nat): nat
    requires i <= |ts|
  {
    if i == 0 then 0 else |ts[0]| + |sep| + JoinOffset(ts[1..], sep, i - 1)
  }

  /** The layout of a join `j` of `ts`: piece `i` sits at offset `o`, and a
      whole separator follows every piece but the last. */
  lemma {:induction false} JoinLayout(ts: seq<string>, sep: string, i: nat, o: nat, j: string)
    requires i < |ts| && o == JoinOffset(ts, sep, i) && j == Join(ts, sep)
    ensures o + |ts[i]| <= |j| && j[o..o + |ts[i]|] == ts[i]
    ensures i + 1 < |ts| ==> o + |ts[i]| + |sep| <= |j| && j[o + |ts[i]|..o + |ts[i]| + |sep|] == sep
    ensures i + 1 == |ts| ==> o + |ts[i]| == |j|
    decreases i
  {
    var n := |ts[i]|;
    if |ts| == 1 {
      assert j == ts[0];
    } else {
      var rest := Join(ts[1..], sep);
      var head := ts[0] + sep;
      assert j == ts[0] + (sep + rest) && j == head + rest;
      if i == 0 {
        SliceBefore(ts[0], sep + rest, 0, n);
        assert ts[0][0..n] == ts[0];
        SliceAfter(ts[0], sep + rest, 0, |sep|);
        SliceBefore(sep, rest, 0, |sep|);
        assert sep[0..|sep|] == sep;
      } else {
        var tl := ts[1..];
        assert tl[i - 1] == ts[i];
        var o' := JoinOffset(tl, sep, i - 1);
        JoinLayout(tl, sep, i - 1, o', rest);
        assert o == |head| + o';
        SliceAfter(head, rest, o', o' + n);
        if i + 1 < |ts| {
          SliceAfter(head, rest, o' + n, o' + n + |sep|);
        }
      }
    }
  }

  /** A slice inside a prefix is a slice of that prefix. */
  lemma {:induction false} SliceBefore(a: string, b: string, x: nat, y: nat)
    requires x <= y <= |a|
    ensures (a + b)[x..y] == a[x..y]
  {
    assert forall k :: 0 <= k < y - x ==> (a + b)[x..y][k] == a[x..y][k];
  }

  /** A slice taken past a prefix is a slice of what follows it. */
  lemma {:induction false} SliceAfter(a: string, b: string, x: nat, y: nat)
    requires x <= y <= |b|
    ensures (a + b)[|a| + x..|a| + y] == b[x..y]
  {
    assert forall k :: 0 <= k < y - x ==> (a + b)[|a| + x..|a| + y][k] == b[x..y][k];
  }
}
