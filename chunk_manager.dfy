/** ChunkManagerUtil (src/utils/chunk-manager.util.ts): packing items into
    size-bounded chunks, and splitting reference text at line boundaries. */
module ChunkManager {
  import opened Wrappers
  import opened Text

  // ---------------------------------------------------------------------
  // splitIntoChunks
  // ---------------------------------------------------------------------

  /** The summed length of the items' serialized forms. */
  function TotalLength<T>(items: seq<T>, stringify: T -> string): nat
  {
    if items == [] then 0
    else TotalLength(items[..|items| - 1], stringify) + |stringify(items[|items| - 1])|
  }

  /** The chunks laid end to end. */
  function Flatten<T>(chunks: seq<seq<T>>): seq<T>
  {
    if chunks == [] then [] else Flatten(chunks[..|chunks| - 1]) + chunks[|chunks| - 1]
  }

  /** No chunk is empty. */
  ghost predicate NonEmptyChunks<T>(chunks: seq<seq<T>>) {
    forall k :: 0 <= k < |chunks| ==> chunks[k] != []
  }

  /** A chunk of two or more items stays within the budget; a single item may
      exceed it. */
  ghost predicate WithinBudget<T>(chunks: seq<seq<T>>, maxSize: int, stringify: T -> string) {
    forall k :: 0 <= k < |chunks| && |chunks[k]| >= 2 ==> TotalLength(chunks[k], stringify) <= maxSize
  }

  /** A chunk is closed only when the next item would push it over the budget. */
  ghost predicate ClosedOnlyWhenFull<T>(chunks: seq<seq<T>>, maxSize: int, stringify: T -> string)
    requires NonEmptyChunks(chunks)
  {
    forall k :: 0 <= k < |chunks| - 1 ==>
      TotalLength(chunks[k], stringify) + |stringify(chunks[k + 1][0])| > maxSize
  }

  /** The four properties of greedy, order-preserving packing. */
  ghost predicate IsGreedyPacking<T>(chunks: seq<seq<T>>, items: seq<T>, maxSize: int, stringify: T -> string) {
    && Flatten(chunks) == items
    && NonEmptyChunks(chunks)
    && WithinBudget(chunks, maxSize, stringify)
    && ClosedOnlyWhenFull(chunks, maxSize, stringify)
  }

  /** splitIntoChunks */
  method SplitIntoChunks<T>(items: seq<T>, maxSize: int, stringify: T -> string) returns (chunks: seq<seq<T>>)
    ensures Flatten(chunks) == items
    ensures NonEmptyChunks(chunks)
    ensures items == [] <==> chunks == []
    ensures WithinBudget(chunks, maxSize, stringify)
    ensures ClosedOnlyWhenFull(chunks, maxSize, stringify)
  {
    chunks := [];
    var current: seq<T> := [];
    var length: nat := 0;
    for i := 0 to |items|
      invariant PackingLoop(items, i, chunks, current, length, maxSize, stringify)
    {
      var item := items[i];
      var str := stringify(item);
      if length + |str| > maxSize && |current| > 0 {
        CloseStep(items, i, chunks, current, length, maxSize, stringify);
        chunks := chunks + [current];
        current := [item];
        length := |str|;
      } else {
        ExtendStep(items, i, chunks, current, length, maxSize, stringify);
        current := current + [item];
        length := length + |str|;
      }
    }
    if |current| > 0 {
      CloseChunk(chunks, current, maxSize, stringify);
      assert items[..|items|] == items;
      chunks := chunks + [current];
    } else {
      assert items[..|items|] == items;
    }
  }

  /** The state of splitIntoChunks after the first i items: the closed chunks
      and the open chunk hold those items in order, the open chunk's length
      is tracked, and the closed chunks are packed greedily. */
  ghost predicate PackingLoop<T>(items: seq<T>, i: nat, chunks: seq<seq<T>>, current: seq<T>, length: nat,
                                 maxSize: int, stringify: T -> string)
    requires i <= |items|
  {
    && Flatten(chunks) + current == items[..i]
    && (i > 0 <==> current != [])
    && (i == 0 ==> chunks == [])
    && length == TotalLength(current, stringify)
    && (|current| >= 2 ==> length <= maxSize)
    && PackedSoFar(chunks, current, maxSize, stringify)
  }

  /** The branch of splitIntoChunks that closes the open chunk. */
  lemma CloseStep<T>(items: seq<T>, i: nat, chunks: seq<seq<T>>, current: seq<T>, length: nat,
                     maxSize: int, stringify: T -> string)
    requires i < |items|
    requires PackingLoop(items, i, chunks, current, length, maxSize, stringify)
    requires length + |stringify(items[i])| > maxSize && |current| > 0
    ensures PackingLoop(items, i + 1, chunks + [current], [items[i]], |stringify(items[i])|, maxSize, stringify)
  {
    var item := items[i];
    var c' := chunks + [current];
    CloseChunk(chunks, current, maxSize, stringify);
    assert items[..i + 1] == items[..i] + [item];
    assert Flatten(c') + [item] == items[..i + 1];
    SingleTotalLength(item, stringify);
    assert c'[|c'| - 1] == current && [item][0] == item;
    assert TotalLength(c'[|c'| - 1], stringify) + |stringify([item][0])| > maxSize;
  }

  /** The total length of a single item. */
  lemma SingleTotalLength<T>(item: T, stringify: T -> string)
    ensures TotalLength([item], stringify) == |stringify(item)|
  {
    assert [item][..0] == [];
  }

  /** The branch of splitIntoChunks that adds the item to the open chunk. */
  lemma ExtendStep<T>(items: seq<T>, i: nat, chunks: seq<seq<T>>, current: seq<T>, length: nat,
                      maxSize: int, stringify: T -> string)
    requires i < |items|
    requires PackingLoop(items, i, chunks, current, length, maxSize, stringify)
    requires !(length + |stringify(items[i])| > maxSize && |current| > 0)
    ensures PackingLoop(items, i + 1, chunks, current + [items[i]], length + |stringify(items[i])|, maxSize, stringify)
  {
    ExtendChunk(chunks, current, items[i], maxSize, stringify);
    assert items[..i + 1] == items[..i] + [items[i]];
  }

  /** The loop state of splitIntoChunks: the closed chunks are a greedy
      packing, and the last of them was closed because the first item of the
      open chunk did not fit. */
  ghost predicate PackedSoFar<T>(chunks: seq<seq<T>>, current: seq<T>, maxSize: int, stringify: T -> string) {
    && NonEmptyChunks(chunks)
    && WithinBudget(chunks, maxSize, stringify)
    && ClosedOnlyWhenFull(chunks, maxSize, stringify)
    && (chunks != [] && current != [] ==>
          TotalLength(chunks[|chunks| - 1], stringify) + |stringify(current[0])| > maxSize)
  }

  /** Adding an item to the open chunk: the items so far grow by it, the
      open chunk's length by its length, and the last closure stays justified. */
  lemma ExtendChunk<T>(chunks: seq<seq<T>>, current: seq<T>, item: T, maxSize: int, stringify: T -> string)
    requires PackedSoFar(chunks, current, maxSize, stringify)
    requires current == [] ==> chunks == []
    ensures Flatten(chunks) + (current + [item]) == Flatten(chunks) + current + [item]
    ensures TotalLength(current + [item], stringify) == TotalLength(current, stringify) + |stringify(item)|
    ensures PackedSoFar(chunks, current + [item], maxSize, stringify)
  {
    assert (current + [item])[..|current|] == current;
    if current != [] {
      assert (current + [item])[0] == current[0];
    }
  }

  /** Closing the open chunk keeps the packing properties. */
  lemma CloseChunk<T>(chunks: seq<seq<T>>, current: seq<T>, maxSize: int, stringify: T -> string)
    requires PackedSoFar(chunks, current, maxSize, stringify)
    requires current != []
    requires |current| >= 2 ==> TotalLength(current, stringify) <= maxSize
    ensures Flatten(chunks + [current]) == Flatten(chunks) + current
    ensures NonEmptyChunks(chunks + [current])
    ensures WithinBudget(chunks + [current], maxSize, stringify)
    ensures ClosedOnlyWhenFull(chunks + [current], maxSize, stringify)
  {
    var c' := chunks + [current];
    assert c'[..|chunks|] == chunks;
    forall k | 0 <= k < |c'|
      ensures c'[k] != [] && (|c'[k]| >= 2 ==> TotalLength(c'[k], stringify) <= maxSize)
    {
      if k < |chunks| {
        assert c'[k] == chunks[k];
      }
    }
    forall k | 0 <= k < |c'| - 1
      ensures TotalLength(c'[k], stringify) + |stringify(c'[k + 1][0])| > maxSize
    {
      assert c'[k] == chunks[k];
      if k + 1 < |chunks| {
        assert c'[k + 1] == chunks[k + 1];
      } else {
        assert c'[k + 1] == current;
      }
    }
  }

  /** Flatten read from the front. */
  lemma {:induction false} FlattenFront<T>(chunks: seq<seq<T>>)
    requires chunks != []
    ensures Flatten(chunks) == chunks[0] + Flatten(chunks[1..])
    decreases |chunks|
  {
    if |chunks| > 1 {
      var init := chunks[..|chunks| - 1];
      FlattenFront(init);
      assert init[1..] == chunks[1..][..|chunks[1..]| - 1];
      assert init[0] == chunks[0];
    } else {
      assert chunks[..0] == [];
    }
  }

  /** The total length of a prefix is at most that of a longer prefix. */
  lemma {:induction false} TotalLengthMonotone<T>(items: seq<T>, i: nat, j: nat, stringify: T -> string)
    requires i <= j <= |items|
    ensures TotalLength(items[..i], stringify) <= TotalLength(items[..j], stringify)
    decreases j - i
  {
    if i < j {
      TotalLengthMonotone(items, i, j - 1, stringify);
      assert items[..j][..j - 1] == items[..j - 1];
    }
  }

  /** What is left after the first chunk is a greedy packing of the rest. */
  lemma TailIsGreedyPacking<T>(chunks: seq<seq<T>>, items: seq<T>, maxSize: int, stringify: T -> string)
    requires IsGreedyPacking(chunks, items, maxSize, stringify)
    requires chunks != []
    ensures |chunks[0]| <= |items| && chunks[0] == items[..|chunks[0]|]
    ensures IsGreedyPacking(chunks[1..], items[|chunks[0]|..], maxSize, stringify)
  {
    FlattenFront(chunks);
    var tail := chunks[1..];
    assert forall k :: 0 <= k < |tail| ==> tail[k] == chunks[k + 1];
  }

  /** In a greedy packing with a second chunk, the first chunk plus the next
      item is over the budget. */
  lemma FirstChunkIsFull<T>(chunks: seq<seq<T>>, items: seq<T>, maxSize: int, stringify: T -> string)
    requires IsGreedyPacking(chunks, items, maxSize, stringify)
    requires |chunks| >= 2
    ensures |chunks[0]| < |items|
    ensures TotalLength(items[..|chunks[0]| + 1], stringify) > maxSize
  {
    TailIsGreedyPacking(chunks, items, maxSize, stringify);
    var n := |chunks[0]|;
    FlattenFront(chunks[1..]);
    assert chunks[1..][0] == chunks[1];
    assert chunks[1][0] == items[n];
    assert items[..n + 1][..n] == items[..n];
  }

  /** Every prefix of two or more items of a first chunk fits the budget. */
  lemma FirstChunkPrefixesFit<T>(chunks: seq<seq<T>>, items: seq<T>, maxSize: int, stringify: T -> string)
    requires IsGreedyPacking(chunks, items, maxSize, stringify)
    requires chunks != []
    ensures |chunks[0]| <= |items|
    ensures forall m :: 2 <= m <= |chunks[0]| ==> TotalLength(items[..m], stringify) <= maxSize
  {
    TailIsGreedyPacking(chunks, items, maxSize, stringify);
    forall m | 2 <= m <= |chunks[0]|
      ensures TotalLength(items[..m], stringify) <= maxSize
    {
      TotalLengthMonotone(items, m, |chunks[0]|, stringify);
    }
  }

  /** The first chunks of two greedy packings of the same items: the first
      is at least as long as the second, since a shorter one would have been
      closed although the next item still fitted. */
  lemma FirstChunkNotShorter<T>(c1: seq<seq<T>>, c2: seq<seq<T>>, items: seq<T>, maxSize: int, stringify: T -> string)
    requires IsGreedyPacking(c1, items, maxSize, stringify)
    requires IsGreedyPacking(c2, items, maxSize, stringify)
    requires c1 != [] && c2 != []
    ensures |c1[0]| >= |c2[0]|
  {
    TailIsGreedyPacking(c1, items, maxSize, stringify);
    FirstChunkPrefixesFit(c2, items, maxSize, stringify);
    if |c1| == 1 {
      FlattenFront(c1);
      assert Flatten(c1[1..]) == [];
    } else {
      FirstChunkIsFull(c1, items, maxSize, stringify);
    }
  }

  /** The properties of greedy packing determine the chunks completely. */
  lemma {:induction false} GreedyPackingIsUnique<T>(c1: seq<seq<T>>, c2: seq<seq<T>>, items: seq<T>, maxSize: int, stringify: T -> string)
    requires IsGreedyPacking(c1, items, maxSize, stringify)
    requires IsGreedyPacking(c2, items, maxSize, stringify)
    ensures c1 == c2
    decreases |items|
  {
    if c1 == [] || c2 == [] {
      if c1 != [] {
        FlattenFront(c1);
      }
      if c2 != [] {
        FlattenFront(c2);
      }
    } else {
      FirstChunkNotShorter(c1, c2, items, maxSize, stringify);
      FirstChunkNotShorter(c2, c1, items, maxSize, stringify);
      TailIsGreedyPacking(c1, items, maxSize, stringify);
      TailIsGreedyPacking(c2, items, maxSize, stringify);
      GreedyPackingIsUnique(c1[1..], c2[1..], items[|c1[0]|..], maxSize, stringify);
      assert c1 == [c1[0]] + c1[1..];
      assert c2 == [c2[0]] + c2[1..];
    }
  }

  /** A greedy packing with one more chunk in front. */
  lemma ConsChunk<T>(c: seq<T>, rest: seq<seq<T>>, tail: seq<T>, maxSize: int, stringify: T -> string)
    requires IsGreedyPacking(rest, tail, maxSize, stringify)
    requires c != []
    requires |c| >= 2 ==> TotalLength(c, stringify) <= maxSize
    requires rest != [] ==> TotalLength(c, stringify) + |stringify(rest[0][0])| > maxSize
    ensures IsGreedyPacking([c] + rest, c + tail, maxSize, stringify)
  {
    var r := [c] + rest;
    FlattenFront(r);
    assert r[1..] == rest;
    ConsNonEmpty(c, rest);
    ConsWithinBudget(c, rest, maxSize, stringify);
    ConsClosed(c, rest, maxSize, stringify);
  }

  lemma ConsNonEmpty<T>(c: seq<T>, rest: seq<seq<T>>)
    requires c != [] && NonEmptyChunks(rest)
    ensures NonEmptyChunks([c] + rest)
  {
    var r := [c] + rest;
    forall k | 0 <= k < |r| ensures r[k] != [] {
      if k > 0 { assert r[k] == rest[k - 1]; }
    }
  }

  lemma ConsWithinBudget<T>(c: seq<T>, rest: seq<seq<T>>, maxSize: int, stringify: T -> string)
    requires WithinBudget(rest, maxSize, stringify)
    requires |c| >= 2 ==> TotalLength(c, stringify) <= maxSize
    ensures WithinBudget([c] + rest, maxSize, stringify)
  {
    var r := [c] + rest;
    forall k | 0 <= k < |r| && |r[k]| >= 2 ensures TotalLength(r[k], stringify) <= maxSize {
      if k > 0 { assert r[k] == rest[k - 1]; }
    }
  }

  lemma ConsClosed<T>(c: seq<T>, rest: seq<seq<T>>, maxSize: int, stringify: T -> string)
    requires c != [] && NonEmptyChunks(rest) && ClosedOnlyWhenFull(rest, maxSize, stringify)
    requires rest != [] ==> TotalLength(c, stringify) + |stringify(rest[0][0])| > maxSize
    ensures NonEmptyChunks([c] + rest) && ClosedOnlyWhenFull([c] + rest, maxSize, stringify)
  {
    var r := [c] + rest;
    ConsNonEmpty(c, rest);
    forall k | 0 <= k < |r| - 1
      ensures TotalLength(r[k], stringify) + |stringify(r[k + 1][0])| > maxSize
    {
      assert r[k + 1] == rest[k];
      if k > 0 { assert r[k] == rest[k - 1]; }
    }
  }

  /** Items cut into runs of `n`, the last run possibly shorter. */
  function Chop<T>(items: seq<T>, n: nat): (r: seq<seq<T>>)
    requires n >= 1
    decreases |items|
  {
    if items == [] then []
    else if |items| <= n then [items]
    else [items[..n]] + Chop(items[n..], n)
  }

  /** The total length of items that all serialize to `len` characters. */
  lemma {:induction false} UniformTotalLength<T>(items: seq<T>, len: nat, stringify: T -> string)
    requires forall i :: 0 <= i < |items| ==> |stringify(items[i])| == len
    ensures TotalLength(items, stringify) == |items| * len
  {
    if items != [] {
      UniformTotalLength(items[..|items| - 1], len, stringify);
    }
  }

  /** When every item serializes to `len` characters and exactly `n` of them
      fit the budget, greedy packing cuts the items into runs of `n`: this and
      the uniqueness of greedy packings determine splitIntoChunks' result. */
  lemma {:induction false} UniformItemsPackEvenly<T>(items: seq<T>, len: nat, n: nat, maxSize: int, stringify: T -> string)
    requires n >= 1
    requires forall i :: 0 <= i < |items| ==> |stringify(items[i])| == len
    requires n * len <= maxSize < (n + 1) * len
    ensures IsGreedyPacking(Chop(items, n), items, maxSize, stringify)
    decreases |items|
  {
    if items == [] {
    } else if |items| <= n {
      UniformTotalLength(items, len, stringify);
      MulMonotone(|items|, n, len);
      ConsChunk(items, [], [], maxSize, stringify);
      assert [items] + [] == [items] && items + [] == items;
    } else {
      var c := items[..n];
      var tail := items[n..];
      assert forall i :: 0 <= i < |tail| ==> tail[i] == items[n + i];
      UniformItemsPackEvenly(tail, len, n, maxSize, stringify);
      UniformTotalLength(c, len, stringify);
      ChopHead(tail, n);
      assert |stringify(tail[0])| == len by {
        assert tail[0] == items[n];
      }
      assert (n + 1) * len == n * len + len;
      ConsChunk(c, Chop(tail, n), tail, maxSize, stringify);
      assert c + tail == items;
    }
  }

  /** A product grows with its first factor. */
  lemma MulMonotone(a: nat, b: nat, len: nat)
    requires a <= b
    ensures a * len <= b * len
  {
    assert b * len == a * len + (b - a) * len;
  }

  /** The first run of a chop starts with the first item. */
  lemma ChopHead<T>(items: seq<T>, n: nat)
    requires n >= 1 && items != []
    ensures Chop(items, n) != [] && Chop(items, n)[0] != [] && Chop(items, n)[0][0] == items[0]
  {
  }

  /** The example of 25 items of 500 characters each with a budget of 2000:
      seven chunks holding 4, 4, 4, 4, 4, 4 and 1 items. */
  lemma TwentyFiveItemsOfFiveHundred<T>(chunks: seq<seq<T>>, items: seq<T>, stringify: T -> string)
    requires |items| == 25
    requires forall i :: 0 <= i < |items| ==> |stringify(items[i])| == 500
    requires IsGreedyPacking(chunks, items, 2000, stringify)
    ensures |chunks| == 7
    ensures forall k :: 0 <= k < 6 ==> |chunks[k]| == 4
    ensures |chunks[6]| == 1
  {
    UniformItemsPackEvenly(items, 500, 4, 2000, stringify);
    GreedyPackingIsUnique(chunks, Chop(items, 4), items, 2000, stringify);
    var t1 := items[4..];
    var t2 := t1[4..];
    var t3 := t2[4..];
    var t4 := t3[4..];
    var t5 := t4[4..];
    var t6 := t5[4..];
    assert Chop(t6, 4) == [t6];
    assert Chop(t5, 4) == [t5[..4], t6];
    assert Chop(t4, 4) == [t4[..4], t5[..4], t6];
    assert Chop(t3, 4) == [t3[..4], t4[..4], t5[..4], t6];
    assert Chop(t2, 4) == [t2[..4], t3[..4], t4[..4], t5[..4], t6];
    assert Chop(t1, 4) == [t1[..4], t2[..4], t3[..4], t4[..4], t5[..4], t6];
    assert Chop(items, 4) == [items[..4], t1[..4], t2[..4], t3[..4], t4[..4], t5[..4], t6];
  }

  // ---------------------------------------------------------------------
  // splitReferenceContent
  // ---------------------------------------------------------------------

  /** The non-empty strings among `ss`, in order. */
  function NonEmpty(ss: seq<string>): seq<string> {
    if ss == [] then []
    else
      var last := ss[|ss| - 1];
      NonEmpty(ss[..|ss| - 1]) + (if last == "" then [] else [last])
  }

  /** A prefix one element longer. */
  lemma TakeOneMore<T>(s: seq<T>, i: nat)
    requires i < |s|
    ensures s[..i + 1] == s[..i] + [s[i]]
  {
  }

  /** The non-empty lines of the chunks, chunk after chunk. */
  function NonEmptyLines(chunks: seq<string>): seq<string> {
    if chunks == [] then []
    else NonEmptyLines(chunks[..|chunks| - 1]) + NonEmpty(Split(chunks[|chunks| - 1]))
  }

  /** Filtering distributes over concatenation. */
  lemma {:induction false} NonEmptyAppend(a: seq<string>, b: seq<string>)
    ensures NonEmpty(a + b) == NonEmpty(a) + NonEmpty(b)
    decreases |b|
  {
    if b == [] {
      assert a + b == a;
    } else {
      var init := b[..|b| - 1];
      NonEmptyAppend(a, init);
      assert (a + b)[..|a + b| - 1] == a + init;
    }
  }

  /** The non-empty lines after adding `line` to the open chunk `cur`, which
      splitReferenceContent does by a newline unless `cur` is empty. */
  lemma AddLine(cur: string, line: string)
    requires '\n' !in line
    ensures var next := cur + (if cur != "" then "\n" else "") + line;
            NonEmpty(Split(next)) == NonEmpty(Split(cur)) + NonEmpty([line])
  {
    SplitWithoutNewline(line);
    if cur != "" {
      SplitAround(cur, line);
      NonEmptyAppend(Split(cur), [line]);
    } else {
      assert cur + "" + line == line;
      assert NonEmpty(Split(cur)) == [];
    }
  }

  /** A non-empty chunk has a non-empty line. */
  ghost predicate HasText(cur: string) {
    cur != "" ==> NonEmpty(Split(cur)) != []
  }

  /** Adding the open chunk to the closed ones. */
  lemma NonEmptyLinesPush(chunks: seq<string>, cur: string)
    ensures NonEmptyLines(chunks + [cur]) == NonEmptyLines(chunks) + NonEmpty(Split(cur))
  {
    assert (chunks + [cur])[..|chunks|] == chunks;
  }

  /** The non-empty lines of a single line. */
  lemma NonEmptyOfLine(line: string)
    requires '\n' !in line
    ensures NonEmpty(Split(line)) == NonEmpty([line]) == (if line == "" then [] else [line])
  {
    SplitWithoutNewline(line);
    assert [line][..0] == [];
  }

  /** The chunks splitReferenceContent has closed and the one it has open. */
  datatype ReferenceState = ReferenceState(closed: seq<string>, open: string)

  /** The state of splitReferenceContent's line loop after `lines`: a line
      that does not fit beside the open chunk, counting one character for a
      newline even when the open chunk is empty, closes the open chunk and
      opens the next one with itself; any other line joins the open chunk,
      by a newline unless the open chunk is empty. */
  function LoopState(lines: seq<string>, maxSize: int): ReferenceState
    decreases |lines|
  {
    if lines == [] then ReferenceState([], "")
    else
      var s := LoopState(lines[..|lines| - 1], maxSize);
      var line := lines[|lines| - 1];
      if |s.open| + |line| + 1 > maxSize then ReferenceState(s.closed + [s.open], line)
      else ReferenceState(s.closed, s.open + (if s.open != "" then "\n" else "") + line)
  }

  /** The chunks splitReferenceContent's line loop returns: the closed ones,
      then the open one unless it is empty. */
  function Packed(lines: seq<string>, maxSize: int): seq<string> {
    var s := LoopState(lines, maxSize);
    s.closed + (if s.open != "" then [s.open] else [])
  }

  /** One more line of the loop. */
  lemma LoopStateNext(lines: seq<string>, i: nat, maxSize: int)
    requires i < |lines|
    ensures var s := LoopState(lines[..i], maxSize);
            var line := lines[i];
            LoopState(lines[..i + 1], maxSize) ==
              if |s.open| + |line| + 1 > maxSize then ReferenceState(s.closed + [s.open], line)
              else ReferenceState(s.closed, s.open + (if s.open != "" then "\n" else "") + line)
  {
    assert lines[..i + 1][..i] == lines[..i];
  }

  /** The chunks closed after the first j lines open the returned chunks. */
  lemma {:induction false} ClosedIsPrefix(lines: seq<string>, j: nat, maxSize: int)
    requires j <= |lines|
    ensures LoopState(lines[..j], maxSize).closed <= Packed(lines, maxSize)
    decreases |lines| - j
  {
    if j == |lines| {
      assert lines[..j] == lines;
    } else {
      ClosedIsPrefix(lines, j + 1, maxSize);
      LoopStateNext(lines, j, maxSize);
    }
  }

  /** splitReferenceContent closes an empty chunk whenever a line of
      `maxSize` or more characters arrives while the open chunk is empty:
      the returned chunks hold that empty chunk and then the line alone. */
  lemma LongLineAfterEmptyOpenChunk(lines: seq<string>, i: nat, maxSize: int)
    requires 0 < maxSize && i < |lines|
    requires LoopState(lines[..i], maxSize).open == "" && |lines[i]| >= maxSize
    ensures var n := |LoopState(lines[..i], maxSize).closed|;
            var out := Packed(lines, maxSize);
            n + 1 < |out| && out[n] == "" && out[n + 1] == lines[i]
  {
    var c := LoopState(lines[..i], maxSize).closed;
    LoopStateNext(lines, i, maxSize);
    assert LoopState(lines[..i + 1], maxSize) == ReferenceState(c + [""], lines[i]);
    if i + 1 == |lines| {
      assert lines[..i + 1] == lines;
      assert Packed(lines, maxSize) == c + [""] + [lines[i]];
    } else {
      LoopStateNext(lines, i + 1, maxSize);
      assert LoopState(lines[..i + 2], maxSize).closed == c + [""] + [lines[i]];
      ClosedIsPrefix(lines, i + 2, maxSize);
    }
  }

  /** Two short lines share a chunk; the line that does not fit beside
      them opens the next one. */
  lemma ShortLinesShareChunk()
    ensures Packed(["a", "b", "cd"], 5) == ["a\nb", "cd"]
  {
    var one, two, three := ["a"], ["a", "b"], ["a", "b", "cd"];
    assert three[..2] == two && two[..1] == one && one[..0] == [];
    assert LoopState(one, 5) == ReferenceState([], "a");
    assert "a" + "\n" + "b" == "a\nb";
    assert LoopState(two, 5) == ReferenceState([], "a\nb");
    assert LoopState(three, 5) == ReferenceState(["a\nb"], "cd");
  }

  /** A line that reaches the budget is preceded by an empty chunk both at
      the start and after an empty line that closed a full chunk. */
  lemma EmptyChunksBeforeLongLines()
    ensures Packed(["aaaa", "", "bbbb"], 4) == ["", "aaaa", "", "bbbb"]
  {
    var l1, l2, l3 := ["aaaa"], ["aaaa", ""], ["aaaa", "", "bbbb"];
    assert l3[..2] == l2 && l2[..1] == l1 && l1[..0] == [];
    assert LoopState(l1, 4) == ReferenceState([""], "aaaa");
    assert LoopState(l2, 4) == ReferenceState(["", "aaaa"], "");
    assert LoopState(l3, 4) == ReferenceState(["", "aaaa", ""], "bbbb");
  }

  /** A leading empty line leaves the open chunk empty, so a long line after
      it is still preceded by an empty chunk. */
  lemma EmptyChunkAfterEmptyLine()
    ensures Packed(["", "aaaa"], 4) == ["", "aaaa"]
  {
    var e1, e2 := [""], ["", "aaaa"];
    assert e2[..1] == e1 && e1[..0] == [];
    assert "" + "" + "" == "";
    assert LoopState(e1, 4) == ReferenceState([], "");
    assert LoopState(e2, 4) == ReferenceState([""], "aaaa");
  }

  /** Loop state, part one: no non-empty line is lost or reordered, and each
      chunk is empty or has a non-empty line. */
  ghost predicate LinesKept(lines: seq<string>, i: nat, chunks: seq<string>, cur: string)
    requires i <= |lines|
  {
    && NonEmptyLines(chunks) + NonEmpty(Split(cur)) == NonEmpty(lines[..i])
    && HasText(cur)
    && (forall k :: 0 <= k < |chunks| ==> HasText(chunks[k]))
  }

  /** Loop state, part two: a chunk over the budget is a single line. */
  ghost predicate SizesKept(lines: seq<string>, chunks: seq<string>, cur: string, maxSize: int) {
    && (forall k :: 0 <= k < |chunks| ==> |chunks[k]| <= maxSize || chunks[k] in lines)
    && (|cur| <= maxSize || cur in lines)
  }

  /** Loop state, part three: an empty chunk is followed by a single line of
      at least `maxSize` characters. */
  ghost predicate EmptyChunksKept(lines: seq<string>, chunks: seq<string>, cur: string, maxSize: int) {
    && (forall k :: 0 <= k < |chunks| - 1 && chunks[k] == "" ==>
          chunks[k + 1] in lines && |chunks[k + 1]| >= maxSize)
    && (chunks != [] && chunks[|chunks| - 1] == "" ==> cur in lines && |cur| >= maxSize)
  }

  /** Loop state, part four: what the first line decides. */
  ghost predicate FirstLineKept(lines: seq<string>, i: nat, chunks: seq<string>, cur: string, maxSize: int) {
    && (1 <= i <= |lines| && |lines[0]| >= maxSize ==> chunks != [] && chunks[0] == "")
    && (i == 0 ==> chunks == [] && cur == "")
  }

  /** Chunk k was closed because the first line of chunk k + 1 does not fit
      beside it. */
  ghost predicate ClosedWhenFull(chunks: seq<string>, k: nat, maxSize: int)
    requires k + 1 < |chunks|
  {
    |chunks[k]| + |Split(chunks[k + 1])[0]| + 1 > maxSize
  }

  /** Loop state, part five: a chunk is closed only when the first line of
      the next one does not fit beside it. */
  ghost predicate FlushKept(chunks: seq<string>, cur: string, maxSize: int) {
    && (forall k :: 0 <= k < |chunks| - 1 ==> ClosedWhenFull(chunks, k, maxSize))
    && (chunks != [] ==> |chunks[|chunks| - 1]| + |Split(cur)[0]| + 1 > maxSize)
  }

  /** The state of splitReferenceContent after the first i lines. */
  ghost predicate ReferenceLoop(lines: seq<string>, i: nat, chunks: seq<string>, cur: string, maxSize: int)
    requires i <= |lines|
  {
    && FlushKept(chunks, cur, maxSize)
    && LinesKept(lines, i, chunks, cur)
    && SizesKept(lines, chunks, cur, maxSize)
    && EmptyChunksKept(lines, chunks, cur, maxSize)
    && FirstLineKept(lines, i, chunks, cur, maxSize)
  }

  lemma PushKeepsLines(lines: seq<string>, i: nat, chunks: seq<string>, cur: string)
    requires i < |lines|
    requires LinesKept(lines, i, chunks, cur)
    requires '\n' !in lines[i]
    ensures LinesKept(lines, i + 1, chunks + [cur], lines[i])
  {
    var line := lines[i];
    PushKeepsOrder(lines, i, chunks, cur);
    NonEmptyOfLine(line);
    PushKeepsText(chunks, cur);
  }

  /** Closing the open chunk and opening one with the next line loses and
      reorders no non-empty line. */
  lemma PushKeepsOrder(lines: seq<string>, i: nat, chunks: seq<string>, cur: string)
    requires i < |lines| && '\n' !in lines[i]
    requires NonEmptyLines(chunks) + NonEmpty(Split(cur)) == NonEmpty(lines[..i])
    ensures NonEmptyLines(chunks + [cur]) + NonEmpty(Split(lines[i])) == NonEmpty(lines[..i + 1])
  {
    var line := lines[i];
    TakeOneMore(lines, i);
    NonEmptyAppend(lines[..i], [line]);
    NonEmptyLinesPush(chunks, cur);
    NonEmptyOfLine(line);
  }

  /** Closing a chunk that is empty or has a non-empty line. */
  lemma PushKeepsText(chunks: seq<string>, cur: string)
    requires HasText(cur) && forall k :: 0 <= k < |chunks| ==> HasText(chunks[k])
    ensures forall k :: 0 <= k < |chunks + [cur]| ==> HasText((chunks + [cur])[k])
  {
    var c' := chunks + [cur];
    forall k | 0 <= k < |c'|
      ensures HasText(c'[k])
    {
      if k < |chunks| {
        assert c'[k] == chunks[k];
      }
    }
  }

  lemma AppendKeepsLines(lines: seq<string>, i: nat, chunks: seq<string>, cur: string)
    requires i < |lines|
    requires LinesKept(lines, i, chunks, cur)
    requires '\n' !in lines[i]
    ensures LinesKept(lines, i + 1, chunks, cur + (if cur != "" then "\n" else "") + lines[i])
  {
    AppendKeepsOrder(lines, i, chunks, cur);
    AppendKeepsText(cur, lines[i]);
  }

  /** Adding the next line to the open chunk loses and reorders no non-empty
      line. */
  lemma AppendKeepsOrder(lines: seq<string>, i: nat, chunks: seq<string>, cur: string)
    requires i < |lines| && '\n' !in lines[i]
    requires NonEmptyLines(chunks) + NonEmpty(Split(cur)) == NonEmpty(lines[..i])
    ensures NonEmptyLines(chunks) + NonEmpty(Split(cur + (if cur != "" then "\n" else "") + lines[i])) ==
      NonEmpty(lines[..i + 1])
  {
    var line := lines[i];
    TakeOneMore(lines, i);
    NonEmptyAppend(lines[..i], [line]);
    AddLine(cur, line);
    ConcatAssoc(NonEmptyLines(chunks), NonEmpty(Split(cur)), NonEmpty([line]));
  }

  /** The open chunk with the next line added is empty or has a non-empty
      line. */
  lemma AppendKeepsText(cur: string, line: string)
    requires HasText(cur) && '\n' !in line
    ensures HasText(cur + (if cur != "" then "\n" else "") + line)
  {
    var next := cur + (if cur != "" then "\n" else "") + line;
    AddLine(cur, line);
    NonEmptyOfLine(line);
    if cur != "" {
      assert |NonEmpty(Split(next))| >= |NonEmpty(Split(cur))|;
    } else if line != "" {
      assert next == line;
    }
  }

  lemma PushKeepsSizes(lines: seq<string>, i: nat, chunks: seq<string>, cur: string, maxSize: int)
    requires SizesKept(lines, chunks, cur, maxSize)
    requires i < |lines|
    ensures SizesKept(lines, chunks + [cur], lines[i], maxSize)
  {
    var c' := chunks + [cur];
    assert forall k :: 0 <= k < |chunks| ==> c'[k] == chunks[k];
  }

  lemma PushKeepsEmptyChunks(lines: seq<string>, i: nat, chunks: seq<string>, cur: string, maxSize: int)
    requires EmptyChunksKept(lines, chunks, cur, maxSize)
    requires i < |lines| && |cur| + |lines[i]| + 1 > maxSize
    ensures EmptyChunksKept(lines, chunks + [cur], lines[i], maxSize)
  {
    var c' := chunks + [cur];
    assert forall k :: 0 <= k < |chunks| ==> c'[k] == chunks[k];
  }

  lemma PushKeepsFirstLine(lines: seq<string>, i: nat, chunks: seq<string>, cur: string, maxSize: int)
    requires FirstLineKept(lines, i, chunks, cur, maxSize)
    requires i < |lines| && |cur| + |lines[i]| + 1 > maxSize
    ensures FirstLineKept(lines, i + 1, chunks + [cur], lines[i], maxSize)
  {
    assert (chunks + [cur])[0] == (if chunks == [] then cur else chunks[0]);
  }

  /** The branch of splitReferenceContent that closes the open chunk. */
  lemma PushStep(lines: seq<string>, i: nat, chunks: seq<string>, cur: string, maxSize: int)
    requires i < |lines|
    requires ReferenceLoop(lines, i, chunks, cur, maxSize)
    requires '\n' !in lines[i]
    requires |cur| + |lines[i]| + 1 > maxSize
    ensures ReferenceLoop(lines, i + 1, chunks + [cur], lines[i], maxSize)
  {
    PushKeepsLines(lines, i, chunks, cur);
    PushKeepsSizes(lines, i, chunks, cur, maxSize);
    PushKeepsEmptyChunks(lines, i, chunks, cur, maxSize);
    PushKeepsFirstLine(lines, i, chunks, cur, maxSize);
    PushKeepsFlush(chunks, cur, lines[i], maxSize);
  }

  lemma PushKeepsFlush(chunks: seq<string>, cur: string, line: string, maxSize: int)
    requires FlushKept(chunks, cur, maxSize)
    requires '\n' !in line && |cur| + |line| + 1 > maxSize
    ensures FlushKept(chunks + [cur], line, maxSize)
  {
    SplitWithoutNewline(line);
    PushFlush(chunks, cur, maxSize);
  }

  lemma AppendKeepsFlush(chunks: seq<string>, cur: string, line: string, maxSize: int)
    requires FlushKept(chunks, cur, maxSize)
    requires '\n' !in line
    ensures FlushKept(chunks, cur + (if cur != "" then "\n" else "") + line, maxSize)
  {
    if cur != "" {
      SplitAround(cur, line);
    } else {
      SplitWithoutNewline(cur);
    }
  }

  /** The branch of splitReferenceContent that adds the line to the open
      chunk, by a newline unless the open chunk is empty. */
  lemma AppendStep(lines: seq<string>, i: nat, chunks: seq<string>, cur: string, maxSize: int)
    requires i < |lines|
    requires ReferenceLoop(lines, i, chunks, cur, maxSize)
    requires '\n' !in lines[i]
    requires |cur| + |lines[i]| + 1 <= maxSize
    ensures ReferenceLoop(lines, i + 1, chunks, cur + (if cur != "" then "\n" else "") + lines[i], maxSize)
  {
    AppendKeepsLines(lines, i, chunks, cur);
    AppendKeepsFlush(chunks, cur, lines[i], maxSize);
  }

  /** splitReferenceContent. Content that fits is returned whole; otherwise
      the lines are packed into chunks of at most `maxSize` characters, joined
      by newlines, where a line too long for any chunk forms a chunk of its
      own. As written, an empty line is dropped when the open chunk is empty,
      and a line of `maxSize` or more characters that arrives while the open
      chunk is empty first closes that empty chunk. */
  method SplitReferenceContent(content: string, maxSize: int) returns (r: Result<seq<string>>)
    ensures r.Err? <==> maxSize <= 0
    ensures r.Err? ==> r.error == "Max size must be greater than 0"
    ensures 0 < maxSize && |content| <= maxSize ==> r == Ok([content])
    ensures r.Ok? ==> forall k :: 0 <= k < |r.value| ==>
              |r.value[k]| <= maxSize || r.value[k] in Split(content)
    ensures r.Ok? ==> NonEmptyLines(r.value) == NonEmpty(Split(content))
    ensures r.Ok? && maxSize < |content| ==> (r.value == [] <==> NonEmpty(Split(content)) == [])
    ensures r.Ok? && maxSize < |content| && r.value != [] ==> r.value[|r.value| - 1] != ""
    ensures r.Ok? && maxSize < |content| ==>
              forall k :: 0 <= k < |r.value| && r.value[k] == "" ==>
                k + 1 < |r.value| && r.value[k + 1] in Split(content) && |r.value[k + 1]| >= maxSize
    ensures r.Ok? && maxSize < |content| && |Split(content)[0]| >= maxSize ==>
              r.value != [] && r.value[0] == ""
    ensures r.Ok? && maxSize < |content| ==>
              forall k :: 0 <= k < |r.value| - 1 ==> ClosedWhenFull(r.value, k, maxSize)
    ensures r.Ok? && maxSize < |content| ==> r.value == Packed(Split(content), maxSize)
  {
    if maxSize <= 0 {
      return Err("Max size must be greater than 0");
    }
    if |content| <= maxSize {
      assert [content][..0] == [];
      return Ok([content]);
    }
    var chunks := PackLines(Split(content), maxSize);
    return Ok(chunks);
  }

  /** The line loop of splitReferenceContent. */
  method PackLines(lines: seq<string>, maxSize: int) returns (chunks: seq<string>)
    requires 0 < maxSize && |lines| >= 1
    requires forall k :: 0 <= k < |lines| ==> '\n' !in lines[k]
    ensures chunks == Packed(lines, maxSize)
    ensures LinesPacked(lines, chunks, maxSize)
  {
    chunks := [];
    var cur := "";
    assert lines[..0] == [];
    for i := 0 to |lines|
      invariant LoopState(lines[..i], maxSize) == ReferenceState(chunks, cur)
    {
      LoopStateNext(lines, i, maxSize);
      var line := lines[i];
      if |cur| + |line| + 1 > maxSize {
        chunks := chunks + [cur];
        cur := line;
      } else {
        cur := cur + (if cur != "" then "\n" else "") + line;
      }
    }
    assert lines[..|lines|] == lines;
    if cur != "" {
      chunks := chunks + [cur];
    }
    PackedIsLinesPacked(lines, maxSize);
  }

  /** The loop state after the first i lines meets the loop invariant. */
  lemma {:induction false} LoopStateKept(lines: seq<string>, i: nat, maxSize: int)
    requires 0 < maxSize && i <= |lines|
    requires forall k :: 0 <= k < |lines| ==> '\n' !in lines[k]
    ensures var s := LoopState(lines[..i], maxSize);
            ReferenceLoop(lines, i, s.closed, s.open, maxSize)
    decreases i
  {
    if i == 0 {
      assert lines[..0] == [];
      ReferenceStart(lines, maxSize);
    } else {
      var j := i - 1;
      LoopStateKept(lines, j, maxSize);
      LoopStateNext(lines, j, maxSize);
      var s, s' := LoopState(lines[..j], maxSize), LoopState(lines[..j + 1], maxSize);
      LineStep(lines, j, s, s', maxSize);
    }
  }

  /** One line of the loop keeps the loop invariant. */
  lemma LineStep(lines: seq<string>, j: nat, s: ReferenceState, s': ReferenceState, maxSize: int)
    requires j < |lines| && '\n' !in lines[j]
    requires ReferenceLoop(lines, j, s.closed, s.open, maxSize)
    requires s' == if |s.open| + |lines[j]| + 1 > maxSize then ReferenceState(s.closed + [s.open], lines[j])
                   else ReferenceState(s.closed, s.open + (if s.open != "" then "\n" else "") + lines[j])
    ensures ReferenceLoop(lines, j + 1, s'.closed, s'.open, maxSize)
  {
    if |s.open| + |lines[j]| + 1 > maxSize {
      PushStep(lines, j, s.closed, s.open, maxSize);
    } else {
      AppendStep(lines, j, s.closed, s.open, maxSize);
    }
  }

  /** The chunks of the line loop meet LinesPacked. */
  lemma PackedIsLinesPacked(lines: seq<string>, maxSize: int)
    requires 0 < maxSize && |lines| >= 1
    requires forall k :: 0 <= k < |lines| ==> '\n' !in lines[k]
    ensures LinesPacked(lines, Packed(lines, maxSize), maxSize)
  {
    LoopStateKept(lines, |lines|, maxSize);
    assert lines[..|lines|] == lines;
    var s := LoopState(lines, maxSize);
    if s.open != "" {
      FinalPush(lines, s.closed, s.open, maxSize);
    } else {
      FinalKeep(lines, s.closed, maxSize);
      assert Packed(lines, maxSize) == s.closed;
    }
  }

  /** What splitReferenceContent's line loop delivers: no non-empty line is
      lost or reordered, a chunk over the budget is a single line, the last
      chunk is not empty, an empty chunk is followed by a single line of at
      least `maxSize` characters, as when the first line is that long, and a
      chunk is closed only when the first line of the next one does not fit
      beside it. */
  ghost predicate LinesPacked(lines: seq<string>, chunks: seq<string>, maxSize: int) {
    && NonEmptyLines(chunks) == NonEmpty(lines)
    && (chunks == [] <==> NonEmpty(lines) == [])
    && (chunks != [] ==> chunks[|chunks| - 1] != "")
    && (forall k :: 0 <= k < |chunks| ==> |chunks[k]| <= maxSize || chunks[k] in lines)
    && (forall k :: 0 <= k < |chunks| && chunks[k] == "" ==>
          k + 1 < |chunks| && chunks[k + 1] in lines && |chunks[k + 1]| >= maxSize)
    && (|lines| >= 1 && |lines[0]| >= maxSize ==> chunks != [] && chunks[0] == "")
    && (forall k :: 0 <= k < |chunks| - 1 ==> ClosedWhenFull(chunks, k, maxSize))
  }

  /** Before the first line there is one empty open chunk and nothing closed. */
  lemma ReferenceStart(lines: seq<string>, maxSize: int)
    requires 0 < maxSize
    ensures ReferenceLoop(lines, 0, [], "", maxSize)
  {
    assert NonEmpty(Split("")) == [];
    assert lines[..0] == [];
  }

  /** The properties of splitReferenceContent's result when the open chunk is
      pushed at the end. */
  lemma FinalPush(lines: seq<string>, chunks: seq<string>, cur: string, maxSize: int)
    requires ReferenceLoop(lines, |lines|, chunks, cur, maxSize) && |lines| >= 1
    requires cur != "" && 0 < maxSize
    ensures LinesPacked(lines, chunks + [cur], maxSize)
  {
    FinalPushLines(lines, chunks, cur);
    PushKeepsSizes(lines, 0, chunks, cur, maxSize);
    FinalPushEmptyChunks(lines, chunks, cur, maxSize);
    PushFlush(chunks, cur, maxSize);
    assert (chunks + [cur])[0] == (if chunks == [] then cur else chunks[0]);
  }

  /** Closing the open chunk keeps every closed chunk closed for want of
      room. */
  lemma PushFlush(chunks: seq<string>, cur: string, maxSize: int)
    requires FlushKept(chunks, cur, maxSize)
    ensures var c' := chunks + [cur];
            forall k :: 0 <= k < |c'| - 1 ==> ClosedWhenFull(c', k, maxSize)
  {
    var c' := chunks + [cur];
    forall k | 0 <= k < |c'| - 1
      ensures ClosedWhenFull(c', k, maxSize)
    {
      assert c'[k] == chunks[k];
      if k + 1 < |chunks| {
        assert ClosedWhenFull(chunks, k, maxSize);
        assert c'[k + 1] == chunks[k + 1];
      } else {
        assert c'[k + 1] == cur;
      }
    }
  }

  lemma FinalPushLines(lines: seq<string>, chunks: seq<string>, cur: string)
    requires LinesKept(lines, |lines|, chunks, cur)
    requires cur != ""
    ensures NonEmptyLines(chunks + [cur]) == NonEmpty(lines)
    ensures NonEmpty(lines) != []
  {
    assert lines[..|lines|] == lines;
    NonEmptyLinesPush(chunks, cur);
  }

  lemma FinalPushEmptyChunks(lines: seq<string>, chunks: seq<string>, cur: string, maxSize: int)
    requires EmptyChunksKept(lines, chunks, cur, maxSize)
    requires cur != ""
    ensures var c' := chunks + [cur];
            forall k :: 0 <= k < |c'| && c'[k] == "" ==>
              k + 1 < |c'| && c'[k + 1] in lines && |c'[k + 1]| >= maxSize
  {
    var c' := chunks + [cur];
    assert forall k :: 0 <= k < |chunks| ==> c'[k] == chunks[k];
  }

  /** The properties of splitReferenceContent's result when nothing is left
      open at the end. */
  lemma FinalKeep(lines: seq<string>, chunks: seq<string>, maxSize: int)
    requires ReferenceLoop(lines, |lines|, chunks, "", maxSize) && |lines| >= 1
    requires 0 < maxSize
    ensures LinesPacked(lines, chunks, maxSize)
  {
    assert lines[..|lines|] == lines;
    assert NonEmpty(Split("")) == [];
    assert NonEmptyLines(chunks) == NonEmpty(lines);
    if chunks != [] {
      var last := chunks[|chunks| - 1];
      assert HasText(last);
      assert |NonEmptyLines(chunks)| >= |NonEmpty(Split(last))|;
    }
  }
}
