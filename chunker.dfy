/** `chunkText` of the knowledge controller: the extracted text is split on
    runs of white space, the tokens are cut into consecutive groups of at
    most `chunkSize`, each group is joined with single spaces, and chunks
    that are blank after trimming are dropped. */
module Chunker {
  import opened JsText

  /** Words per chunk; both ingestion handlers pass this value. */
  const ChunkSize: nat := 50

  function Min(a: int, b: int): int {
    if a < b then a else b
  }

  /** ceil(a / b). */
  function CeilDiv(a: nat, b: nat): nat
    requires b > 0
  {
    (a + b - 1) / b
  }

  /** The slices `ws.slice(i, i + size)` for i = 0, size, 2 * size, ...
      while i < |ws|. */
  function Groups(ws: seq<string>, size: nat): seq<seq<string>>
    requires size > 0
    decreases |ws|
  {
    if ws == [] then []
    else
      var k := Min(size, |ws|);
      [ws[..k]] + Groups(ws[k..], size)
  }

  /** Each group joined with single spaces, as `slice(...).join(' ')` does. */
  function JoinEach(gs: seq<seq<string>>): seq<string> {
    if gs == [] then [] else [Join(gs[0], " ")] + JoinEach(gs[1..])
  }

  /** `cs.filter(chunk => chunk.trim().length > 0)`. */
  function KeepNonBlank(cs: seq<string>): seq<string> {
    if cs == [] then []
    else (if |Trim(cs[0])| > 0 then [cs[0]] else []) + KeepNonBlank(cs[1..])
  }

  /** What `chunkText(text, size)` returns. */
  function Chunks(text: string, size: nat): seq<string>
    requires size > 0
  {
    KeepNonBlank(JoinEach(Groups(Split(text), size)))
  }

  /** `chunkText(text, chunkSize)`: the `for` loop that pushes one joined
      slice per step of `chunkSize`, then the filter. A `chunkSize` of 0
      would never leave the loop, so callers must pass a positive size. */
  method ChunkText(text: string, chunkSize: nat) returns (chunks: seq<string>)
    requires chunkSize > 0
    ensures chunks == Chunks(text, chunkSize)
    ensures forall i :: 0 <= i < |chunks| ==> |Trim(chunks[i])| > 0
  {
    var words := Split(text);
    ghost var all := JoinEach(Groups(words, chunkSize));
    var raw: seq<string> := [];
    var i := 0;
    while i < |words|
      invariant 0 <= i
      invariant raw + JoinEach(Groups(words[Min(i, |words|)..], chunkSize)) == all
      decreases |words| - i
    {
      var end := Min(i + chunkSize, |words|);
      var piece := Join(words[i..end], " ");
      assert Min(i, |words|) == i;
      GroupsStep(words, i, chunkSize);
      AppendAssoc(raw, piece, JoinEach(Groups(words[end..], chunkSize)), all);
      raw := raw + [piece];
      i := i + chunkSize;
      assert Min(i, |words|) == end;
    }
    assert words[Min(i, |words|)..] == [];
    assert raw == all by {
      assert JoinEach(Groups([], chunkSize)) == [];
      assert raw + [] == raw;
    }
    chunks := KeepNonBlank(raw);
    KeepNonBlankNonBlank(raw);
  }

  /** Moving the head of what is left onto what is done keeps the whole. */
  lemma {:induction false} AppendAssoc(done: seq<string>, x: string, rest: seq<string>, all: seq<string>)
    requires done + ([x] + rest) == all
    ensures (done + [x]) + rest == all
  {
    assert (done + [x]) + rest == done + ([x] + rest);
  }

  /** One turn of the loop in `chunkText`: the slice starting at `i` is
      the first group of what is left. */
  lemma {:induction false} GroupsStep(ws: seq<string>, i: nat, size: nat)
    requires size > 0 && i < |ws|
    ensures JoinEach(Groups(ws[i..], size))
      == [Join(ws[i..Min(i + size, |ws|)], " ")] + JoinEach(Groups(ws[Min(i + size, |ws|)..], size))
  {
    var end := Min(i + size, |ws|);
    var k := Min(size, |ws| - i);
    assert ws[i..][..k] == ws[i..end];
    assert ws[i..][k..] == ws[end..];
    assert Groups(ws[i..], size) == [ws[i..end]] + Groups(ws[end..], size);
  }

  /** Two lists of non-blank chunks concatenate to one. */
  lemma {:induction false} NonBlankAppend(a: seq<string>, b: seq<string>, ab: seq<string>)
    requires ab == a + b
    requires forall i :: 0 <= i < |a| ==> |Trim(a[i])| > 0
    requires forall i :: 0 <= i < |b| ==> |Trim(b[i])| > 0
    ensures forall i :: 0 <= i < |ab| ==> |Trim(ab[i])| > 0
  {
    forall i | 0 <= i < |ab|
      ensures |Trim(ab[i])| > 0
    {
      if i >= |a| {
        assert ab[i] == b[i - |a|];
      } else {
        assert ab[i] == a[i];
      }
    }
  }

  /** Every chunk the filter keeps is non-empty after trimming. */
  lemma {:induction false} KeepNonBlankNonBlank(cs: seq<string>)
    ensures forall i :: 0 <= i < |KeepNonBlank(cs)| ==> |Trim(KeepNonBlank(cs)[i])| > 0
  {
    if cs != [] {
      var head := if |Trim(cs[0])| > 0 then [cs[0]] else [];
      var rest := KeepNonBlank(cs[1..]);
      KeepNonBlankNonBlank(cs[1..]);
      NonBlankAppend(head, rest, KeepNonBlank(cs));
    }
  }

  /** Concatenation of token groups. */
  function Flatten(gs: seq<seq<string>>): seq<string> {
    if gs == [] then [] else gs[0] + Flatten(gs[1..])
  }

  /** The non-empty tokens, in order. */
  function Words(ws: seq<string>): seq<string> {
    if ws == [] then [] else (if ws[0] != [] then [ws[0]] else []) + Words(ws[1..])
  }

  /** A group holding at least one non-empty token. */
  predicate HasWord(g: seq<string>) {
    exists i :: 0 <= i < |g| && g[i] != []
  }

  /** The groups whose joined chunk survives the filter. */
  function KeptGroups(gs: seq<seq<string>>): seq<seq<string>> {
    if gs == [] then [] else (if HasWord(gs[0]) then [gs[0]] else []) + KeptGroups(gs[1..])
  }

  /** The shape `split(/\s+/)` produces: tokens free of white space, none
      but the first and the last of them empty. */
  predicate WellSplit(ws: seq<string>) {
    && (forall i :: 0 <= i < |ws| ==> NoSpace(ws[i]))
    && (forall i :: 0 < i < |ws| - 1 ==> ws[i] != [])
  }

  lemma {:induction false} SplitIsWellSplit(s: string)
    ensures WellSplit(Split(s))
  {
    SplitInteriorNonEmpty(s);
  }

  /** Euclidean division has one quotient and one remainder. */
  lemma {:induction false} DivUnique(y: int, n: int, q: int, r: int)
    requires n > 0 && 0 <= r < n && y == n * q + r
    ensures y / n == q
  {
    var q', r' := y / n, y % n;
    var k := q - q';
    assert n * k == r' - r;
    assert k >= 1 ==> n * k >= n;
    assert k <= -1 ==> n * k <= -n;
  }

  lemma {:induction false} DivStep(x: nat, n: nat)
    requires n > 0
    ensures (x + n) / n == x / n + 1
  {
    var q, r := x / n, x % n;
    assert x + n == n * (q + 1) + r;
    DivUnique(x + n, n, q + 1, r);
  }

  lemma {:induction false} DivOne(x: nat, n: nat)
    requires 0 < x <= n
    ensures (x + n - 1) / n == 1
  {
    DivUnique(x + n - 1, n, 1, x - 1);
  }

  /** Before the filter there are ceil(|ws| / size) chunks. */
  lemma {:induction false} GroupsCount(ws: seq<string>, size: nat)
    requires size > 0
    ensures |Groups(ws, size)| == CeilDiv(|ws|, size)
    decreases |ws|
  {
    if ws != [] {
      var k := Min(size, |ws|);
      GroupsCount(ws[k..], size);
      if |ws| <= size {
        DivOne(|ws|, size);
      } else {
        DivStep(|ws| - size + size - 1, size);
      }
    }
  }

  /** The groups cut the tokens into consecutive pieces: together they are
      the token sequence, each holds between 1 and `size` tokens, and all
      but the last hold exactly `size`. */
  lemma {:induction false} GroupsShape(ws: seq<string>, size: nat)
    requires size > 0
    ensures Flatten(Groups(ws, size)) == ws
    ensures forall j :: 0 <= j < |Groups(ws, size)| ==> 1 <= |Groups(ws, size)[j]| <= size
    ensures forall j :: 0 <= j < |Groups(ws, size)| - 1 ==> |Groups(ws, size)[j]| == size
    decreases |ws|
  {
    if ws != [] {
      var k := Min(size, |ws|);
      var rest := Groups(ws[k..], size);
      GroupsShape(ws[k..], size);
      assert Groups(ws, size) == [ws[..k]] + rest;
      assert Flatten([ws[..k]] + rest) == ws[..k] + Flatten(rest);
      assert ws[..k] + ws[k..] == ws;
      assert k < |ws| ==> rest != [];
    }
  }

  /** Each group inherits the shape of the split it was cut from. */
  lemma {:induction false} GroupsWellSplit(ws: seq<string>, size: nat)
    requires size > 0
    requires WellSplit(ws)
    ensures forall j :: 0 <= j < |Groups(ws, size)| ==> WellSplit(Groups(ws, size)[j])
    decreases |ws|
  {
    if ws != [] {
      var k := Min(size, |ws|);
      var rest := ws[k..];
      assert WellSplit(ws[..k]);
      assert WellSplit(rest) by {
        forall i | 0 <= i < |rest| ensures NoSpace(rest[i]) {
          assert rest[i] == ws[k + i];
        }
        forall i | 0 < i < |rest| - 1 ensures rest[i] != [] {
          assert rest[i] == ws[k + i];
        }
      }
      GroupsWellSplit(rest, size);
      assert Groups(ws, size) == [ws[..k]] + Groups(rest, size);
    }
  }

  /** The filter on a list with a known head. */
  lemma {:induction false} KeepNonBlankCons(c: string, cs: seq<string>, all: seq<string>)
    requires all == [c] + cs
    ensures KeepNonBlank(all) == (if |Trim(c)| > 0 then [c] else []) + KeepNonBlank(cs)
  {
    assert all[0] == c && all[1..] == cs;
  }

  /** Joining each group of a list with a known head. */
  lemma {:induction false} JoinEachCons(g: seq<string>, gs: seq<seq<string>>, all: seq<seq<string>>)
    requires all == [g] + gs
    ensures JoinEach(all) == [Join(g, " ")] + JoinEach(gs)
  {
    assert all[0] == g && all[1..] == gs;
  }

  /** Every group of a list of well-split groups without its head is
      well split. */
  lemma {:induction false} AllWellSplitTail(gs: seq<seq<string>>)
    requires gs != []
    requires forall j :: 0 <= j < |gs| ==> WellSplit(gs[j])
    ensures forall j :: 0 <= j < |gs[1..]| ==> WellSplit(gs[1..][j])
  {
    forall j | 0 <= j < |gs[1..]|
      ensures WellSplit(gs[1..][j])
    {
      assert gs[1..][j] == gs[j + 1];
    }
  }

  /** Joining then filtering is filtering the groups then joining: a chunk
      is blank exactly when its group has no non-empty token. */
  lemma {:induction false} KeepNonBlankJoin(gs: seq<seq<string>>)
    requires forall j :: 0 <= j < |gs| ==> WellSplit(gs[j])
    ensures KeepNonBlank(JoinEach(gs)) == JoinEach(KeptGroups(gs))
  {
    if gs != [] {
      var g := gs[0];
      var c := Join(g, " ");
      var tail := JoinEach(gs[1..]);
      var keptTail := KeptGroups(gs[1..]);
      assert |Trim(c)| > 0 <==> HasWord(g) by {
        JoinBlank(g);
        TrimEmptyIffBlank(c);
      }
      assert JoinEach(gs) == [c] + tail;
      KeepNonBlankCons(c, tail, JoinEach(gs));
      assert KeptGroups(gs) == (if HasWord(g) then [g] else []) + keptTail;
      AllWellSplitTail(gs);
      KeepNonBlankJoin(gs[1..]);
      if HasWord(g) {
        JoinEachCons(g, keptTail, KeptGroups(gs));
      } else {
        assert KeptGroups(gs) == keptTail;
      }
    }
  }

  lemma {:induction false} JoinEachAt(gs: seq<seq<string>>)
    ensures |JoinEach(gs)| == |gs|
    ensures forall j :: 0 <= j < |gs| ==> JoinEach(gs)[j] == Join(gs[j], " ")
  {
    if gs != [] {
      JoinEachAt(gs[1..]);
      assert JoinEach(gs) == [Join(gs[0], " ")] + JoinEach(gs[1..]);
    }
  }

  /** The kept groups are groups that were cut. */
  lemma {:induction false} KeptGroupsSubset(gs: seq<seq<string>>)
    ensures forall j :: 0 <= j < |KeptGroups(gs)| ==> KeptGroups(gs)[j] in gs && HasWord(KeptGroups(gs)[j])
  {
    if gs != [] {
      KeptGroupsSubset(gs[1..]);
      var head := if HasWord(gs[0]) then [gs[0]] else [];
      assert KeptGroups(gs) == head + KeptGroups(gs[1..]);
      forall j | 0 <= j < |KeptGroups(gs)|
        ensures KeptGroups(gs)[j] in gs && HasWord(KeptGroups(gs)[j])
      {
        if j >= |head| {
          assert KeptGroups(gs)[j] == KeptGroups(gs[1..])[j - |head|];
          assert KeptGroups(gs[1..])[j - |head|] in gs[1..];
        }
      }
    }
  }

  lemma {:induction false} WordsConcat(a: seq<string>, b: seq<string>)
    ensures Words(a + b) == Words(a) + Words(b)
  {
    if a != [] {
      assert (a + b)[1..] == a[1..] + b;
      WordsConcat(a[1..], b);
    } else {
      assert a + b == b;
    }
  }

  lemma {:induction false} WordsNone(g: seq<string>)
    requires !HasWord(g)
    ensures Words(g) == []
  {
    if g != [] {
      assert g[0] == [];
      assert !HasWord(g[1..]) by {
        forall i | 0 <= i < |g| - 1 ensures g[1..][i] == [] {
          assert g[1..][i] == g[i + 1];
        }
      }
      WordsNone(g[1..]);
    }
  }

  /** Dropping the blank chunks loses no non-empty token. */
  lemma {:induction false} KeptWords(gs: seq<seq<string>>)
    ensures Words(Flatten(KeptGroups(gs))) == Words(Flatten(gs))
  {
    if gs != [] {
      KeptWords(gs[1..]);
      WordsConcat(gs[0], Flatten(gs[1..]));
      if HasWord(gs[0]) {
        assert KeptGroups(gs) == [gs[0]] + KeptGroups(gs[1..]);
        assert Flatten(KeptGroups(gs)) == gs[0] + Flatten(KeptGroups(gs[1..]));
        WordsConcat(gs[0], Flatten(KeptGroups(gs[1..])));
      } else {
        assert KeptGroups(gs) == KeptGroups(gs[1..]);
        WordsNone(gs[0]);
      }
    }
  }

  /** Every chunk `chunkText` returns is the space-join of one cut group
      that has a non-empty token, and splitting it on white space gives back
      exactly that group: at most `size` tokens of the text, in their order. */
  lemma {:induction false} ChunkTokens(text: string, size: nat)
    requires size > 0
    ensures var ks := KeptGroups(Groups(Split(text), size));
      && |Chunks(text, size)| == |ks|
      && forall i :: 0 <= i < |ks| ==>
           && Chunks(text, size)[i] == Join(ks[i], " ")
           && Split(Chunks(text, size)[i]) == ks[i]
           && 1 <= |ks[i]| <= size
  {
    var ws := Split(text);
    var gs := Groups(ws, size);
    var ks := KeptGroups(gs);
    SplitIsWellSplit(text);
    GroupsWellSplit(ws, size);
    GroupsShape(ws, size);
    KeepNonBlankJoin(gs);
    JoinEachAt(ks);
    KeptGroupsSubset(gs);
    forall i | 0 <= i < |ks| ensures Split(Join(ks[i], " ")) == ks[i] && 1 <= |ks[i]| <= size {
      var j :| 0 <= j < |gs| && gs[j] == ks[i];
      SplitJoin(ks[i]);
    }
  }

  /** Reading the kept chunks' groups one after the other gives the text's
      non-empty tokens, all of them and in order. */
  lemma {:induction false} ChunkWords(text: string, size: nat)
    requires size > 0
    ensures Words(Flatten(KeptGroups(Groups(Split(text), size)))) == Words(Split(text))
  {
    GroupsShape(Split(text), size);
    KeptWords(Groups(Split(text), size));
  }

  /** Before the filter the loop pushes ceil(#tokens / size) chunks, and the
      filter can only remove some. */
  lemma {:induction false} ChunkCount(text: string, size: nat)
    requires size > 0
    ensures |JoinEach(Groups(Split(text), size))| == CeilDiv(|Split(text)|, size)
    ensures |Chunks(text, size)| <= |JoinEach(Groups(Split(text), size))|
  {
    var gs := Groups(Split(text), size);
    GroupsCount(Split(text), size);
    JoinEachAt(gs);
    ChunksAtMostGroups(text, size);
  }

  lemma {:induction false} ChunksAtMostGroups(text: string, size: nat)
    requires size > 0
    ensures |Chunks(text, size)| <= |Groups(Split(text), size)|
  {
    var gs := Groups(Split(text), size);
    KeptLength(gs);
    SplitIsWellSplit(text);
    GroupsWellSplit(Split(text), size);
    KeepNonBlankJoin(gs);
    JoinEachAt(KeptGroups(gs));
  }

  lemma {:induction false} KeptLength(gs: seq<seq<string>>)
    ensures |KeptGroups(gs)| <= |gs|
  {
    if gs != [] {
      KeptLength(gs[1..]);
    }
  }

  /** `chunkText` returns no chunk exactly when the text is empty or all
      white space (the condition the ingestion handlers reject). */
  lemma {:induction false} ChunksEmptyIffBlank(text: string, size: nat)
    requires size > 0
    ensures Chunks(text, size) == [] <==> IsBlank(text)
  {
    var ws := Split(text);
    var ks := KeptGroups(Groups(ws, size));
    ChunkTokens(text, size);
    ChunkWords(text, size);
    if IsBlank(text) {
      BlankSplit(text);
      NoWords(ws);
      KeptGroupsSubset(Groups(ws, size));
      if ks != [] {
        WordsOfHasWord(ks);
      }
    } else {
      NonBlankSplit(text);
      var i :| 0 <= i < |ws| && ws[i] != [];
      SomeWord(ws, i);
    }
  }

  /** Only the first and the last group can be without a word, so a chunk
      is dropped as blank only at either end of the token list. */
  lemma {:induction false} BlankOnlyAtEnds(text: string, size: nat)
    requires size > 0
    ensures var gs := Groups(Split(text), size);
      forall j :: 0 < j < |gs| - 1 ==> HasWord(gs[j])
  {
    var ws := Split(text);
    SplitIsWellSplit(text);
    var k := Min(size, |ws|);
    var rest := ws[k..];
    forall i | 0 <= i < |rest| - 1
      ensures rest[i] != []
    {
      assert rest[i] == ws[k + i];
    }
    NonFinalGroupsHaveWords(rest, size);
    assert Groups(ws, size) == [ws[..k]] + Groups(rest, size);
  }

  /** When only the last token may be empty, every group but the last
      holds a word. */
  lemma {:induction false} NonFinalGroupsHaveWords(ws: seq<string>, size: nat)
    requires size > 0
    requires forall i :: 0 <= i < |ws| - 1 ==> ws[i] != []
    ensures forall j :: 0 <= j < |Groups(ws, size)| - 1 ==> HasWord(Groups(ws, size)[j])
    decreases |ws|
  {
    if ws != [] {
      var k := Min(size, |ws|);
      var rest := ws[k..];
      forall i | 0 <= i < |rest| - 1
        ensures rest[i] != []
      {
        assert rest[i] == ws[k + i];
      }
      NonFinalGroupsHaveWords(rest, size);
      assert Groups(ws, size) == [ws[..k]] + Groups(rest, size);
      if rest != [] {
        assert ws[..k][0] == ws[0];
      }
    }
  }

  lemma {:induction false} NoWords(ws: seq<string>)
    requires forall i :: 0 <= i < |ws| ==> ws[i] == []
    ensures Words(ws) == []
  {
    if ws != [] {
      NoWords(ws[1..]);
    }
  }

  lemma {:induction false} SomeWord(ws: seq<string>, i: nat)
    requires i < |ws| && ws[i] != []
    ensures Words(ws) != []
    decreases i
  {
    if i > 0 && ws[0] == [] {
      SomeWord(ws[1..], i - 1);
    }
  }

  /** A non-empty list of groups that each hold a word holds a word. */
  lemma {:induction false} WordsOfHasWord(ks: seq<seq<string>>)
    requires ks != [] && HasWord(ks[0])
    ensures Words(Flatten(ks)) != []
  {
    var i :| 0 <= i < |ks[0]| && ks[0][i] != [];
    assert Flatten(ks) == ks[0] + Flatten(ks[1..]);
    assert (ks[0] + Flatten(ks[1..]))[i] == ks[0][i];
    SomeWord(Flatten(ks), i);
  }
}
