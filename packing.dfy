/** Greedy packing of wrapped comments into buffers of bounded size, the
    rule shared by `MessageToChunks` (pkg/nico/message.go), `chunkize`
    (main.go) and `repliesToChunks` (nicotrans.go): an item is written into
    the last buffer, unless the last buffer's length plus the item's length
    exceeds the size, in which case a new buffer is opened for it. The bound
    is soft: an item longer than the size still gets a buffer of its own.

    A buffer is modelled with its structure: the bytes it held before
    packing started (`head`) and the items written into it since. The
    loops in the handlers work on the bytes alone and are proved equal to
    `Render` of this model. */
module Packing {
  import opened Common

  datatype Chunk = Chunk(head: bytes, items: seq<bytes>)

  /** The bytes of a buffer (`bytes.Buffer.Bytes`). */
  function Bytes(c: Chunk): bytes { c.head + Concat(c.items) }

  /** The byte contents of every buffer, in order. */
  function Render(cs: seq<Chunk>): seq<bytes>
  {
    seq(|cs|, k requires 0 <= k < |cs| => Bytes(cs[k]))
  }

  /** Buffers that already exist when packing starts: bytes, no items. */
  function Existing(bufs: seq<bytes>): seq<Chunk>
  {
    seq(|bufs|, k requires 0 <= k < |bufs| => Chunk(bufs[k], []))
  }

  /** All items of all buffers, in buffer order. */
  function AllItems(cs: seq<Chunk>): seq<bytes>
  {
    Concat(seq(|cs|, k requires 0 <= k < |cs| => cs[k].items))
  }

  /** One step of the loop: write `item` into the last buffer, or into a
      new one when it would make the last one longer than `size`. */
  function Place(cs: seq<Chunk>, item: bytes, size: int): seq<Chunk>
    requires |cs| > 0
  {
    var last := cs[|cs| - 1];
    if |Bytes(last)| + |item| > size then cs + [Chunk([], [item])]
    else cs[..|cs| - 1] + [Chunk(last.head, last.items + [item])]
  }

  /** The buffers after writing all `items`, one by one, starting from the
      buffers `start`. Each item opens at most one buffer. */
  function Pack(start: seq<Chunk>, items: seq<bytes>, size: int): (r: seq<Chunk>)
    requires |start| > 0
    ensures |start| <= |r| <= |start| + |items|
  {
    if items == [] then start
    else Place(Pack(start, items[..|items| - 1], size), items[|items| - 1], size)
  }

  /** A buffer over the size is one that existed before packing and
      received nothing, or a fresh buffer holding a single item. */
  predicate WithinSize(c: Chunk, size: int)
  {
    |Bytes(c)| <= size || c.items == [] || (c.head == [] && |c.items| == 1)
  }

  // ---------------------------------------------------------------- one step

  /** A step leaves every buffer but the last alone, and either opens one
      buffer holding just the item or appends the item to the last one. */
  lemma PlaceAt(cs: seq<Chunk>, item: bytes, size: int)
    requires |cs| > 0
    ensures var r := Place(cs, item, size);
            var n := |cs| - 1;
            (forall k :: 0 <= k < n ==> r[k] == cs[k])
            && if |Bytes(cs[n])| + |item| > size
               then |r| == n + 2 && r[n] == cs[n] && r[n + 1] == Chunk([], [item])
               else |r| == n + 1 && r[n] == Chunk(cs[n].head, cs[n].items + [item])
  {
  }

  /** What a step does to the bytes of the buffers: either one more buffer
      holding exactly the item, or the item appended to the last buffer. */
  lemma RenderPlace(cs: seq<Chunk>, item: bytes, size: int)
    requires |cs| > 0
    ensures var b := Render(cs);
            var n := |cs| - 1;
            Render(Place(cs, item, size))
            == if |b[n]| + |item| > size then b + [item] else b[..n] + [b[n] + item]
  {
    var b := Render(cs);
    var n := |cs| - 1;
    var r := Place(cs, item, size);
    PlaceAt(cs, item, size);
    assert b[n] == Bytes(cs[n]);
    if |b[n]| + |item| > size {
      assert Bytes(r[n + 1]) == item by { ConcatSingle(item); }
      var want := b + [item];
      assert |Render(r)| == |want|;
      forall k | 0 <= k < |want| ensures Render(r)[k] == want[k] {
        if k < n + 1 { assert r[k] == cs[k]; }
      }
    } else {
      ConcatSnoc(cs[n].items, item);
      assert Bytes(r[n]) == b[n] + item;
      var want := b[..n] + [b[n] + item];
      assert |Render(r)| == |want|;
      forall k | 0 <= k < |want| ensures Render(r)[k] == want[k] {
        if k < n { assert r[k] == cs[k]; }
      }
    }
  }

  /** A step appends the item to the concatenated bytes. */
  lemma PlaceBytes(cs: seq<Chunk>, item: bytes, size: int)
    requires |cs| > 0
    ensures Concat(Render(Place(cs, item, size))) == Concat(Render(cs)) + item
  {
    RenderPlace(cs, item, size);
    var b := Render(cs);
    var n := |cs| - 1;
    if |b[n]| + |item| > size {
      ConcatSnoc(b, item);
    } else {
      assert b == b[..n] + [b[n]];
      ConcatSnoc(b[..n], b[n]);
      ConcatSnoc(b[..n], b[n] + item);
    }
  }

  /** Packing one more item of a list is one more step. */
  lemma PackStep(start: seq<Chunk>, items: seq<bytes>, i: nat, size: int)
    requires |start| > 0 && i < |items|
    ensures Pack(start, items[..i + 1], size) == Place(Pack(start, items[..i], size), items[i], size)
  {
    assert items[..i + 1][..i] == items[..i];
  }

  /** The step of the byte-level loops: packing one more item either adds
      a buffer holding just the item or appends the item to the last
      buffer, by the rule of `Place`. */
  lemma PackStepBytes(start: seq<Chunk>, items: seq<bytes>, i: nat, size: int)
    requires |start| > 0 && i < |items|
    ensures var b := Render(Pack(start, items[..i], size));
            var n := |b| - 1;
            Render(Pack(start, items[..i + 1], size))
            == if |b[n]| + |items[i]| > size then b + [items[i]] else b[..n] + [b[n] + items[i]]
  {
    PackStep(start, items, i, size);
    RenderPlace(Pack(start, items[..i], size), items[i], size);
  }

  /** One pass of the Go packing loops over buffers `b` holding the first
      `i` items: `idx` moves past the last buffer when item `i` does not
      fit, an empty buffer is appended when `idx` has none yet (`grown`),
      and the item is written into buffer `idx`. The buffers then hold the
      first `i + 1` items. */
  lemma PackLoopStep(start: seq<Chunk>, items: seq<bytes>, i: nat, size: int,
                     idx: int, grown: seq<bytes>, after: seq<bytes>)
    requires |start| > 0 && i < |items|
    requires var b := Render(Pack(start, items[..i], size));
             idx == (if |b[|b| - 1]| + |items[i]| > size then |b| else |b| - 1)
             && grown == (if |b| <= idx then b + [[]] else b)
    requires 0 <= idx < |grown| && after == grown[idx := grown[idx] + items[i]]
    ensures after == Render(Pack(start, items[..i + 1], size))
  {
    var b := Render(Pack(start, items[..i], size));
    var n := |b| - 1;
    PackStepBytes(start, items, i, size);
    if |b[n]| + |items[i]| > size {
      assert grown == b + [[]] && grown[idx] == [] && [] + items[i] == items[i];
      assert after == b + [items[i]];
    } else {
      assert after == b[..n] + [b[n] + items[i]];
    }
  }

  // ---------------------------------------------------------------- properties of the packing

  /** Nothing is lost or reordered: the buffers hold the bytes they held
      before, followed by every item in order. */
  lemma {:induction false} PackBytes(start: seq<Chunk>, items: seq<bytes>, size: int)
    requires |start| > 0
    ensures Concat(Render(Pack(start, items, size))) == Concat(Render(start)) + Concat(items)
  {
    if items != [] {
      var n := |items| - 1;
      PackBytes(start, items[..n], size);
      PlaceBytes(Pack(start, items[..n], size), items[n], size);
      assert items == items[..n] + [items[n]];
      ConcatSnoc(items[..n], items[n]);
    }
  }

  /** Every item lands in exactly one buffer, in order. */
  lemma {:induction false} PackItems(start: seq<Chunk>, items: seq<bytes>, size: int)
    requires |start| > 0
    ensures AllItems(Pack(start, items, size)) == AllItems(start) + items
  {
    if items != [] {
      var n := |items| - 1;
      var prev := Pack(start, items[..n], size);
      PackItems(start, items[..n], size);
      PlaceItems(prev, items[n], size);
      assert items[..n] + [items[n]] == items;
    }
  }

  lemma PlaceItems(cs: seq<Chunk>, item: bytes, size: int)
    requires |cs| > 0
    ensures AllItems(Place(cs, item, size)) == AllItems(cs) + [item]
  {
    var r := Place(cs, item, size);
    var n := |cs| - 1;
    var parts := seq(|cs|, k requires 0 <= k < |cs| => cs[k].items);
    var parts' := seq(|r|, k requires 0 <= k < |r| => r[k].items);
    if |Bytes(cs[n])| + |item| > size {
      assert parts' == parts + [[item]];
      ConcatSnoc(parts, [item]);
    } else {
      assert parts == parts[..n] + [cs[n].items];
      assert parts' == parts[..n] + [cs[n].items + [item]];
      ConcatSnoc(parts[..n], cs[n].items);
      ConcatSnoc(parts[..n], cs[n].items + [item]);
    }
  }

  /** Buffers before the last one of `start` are never touched; the last
      one keeps its bytes and may receive items. */
  lemma {:induction false} PackKeepsStart(start: seq<Chunk>, items: seq<bytes>, size: int)
    requires |start| > 0
    ensures var r := Pack(start, items, size);
            var n := |start| - 1;
            r[..n] == start[..n] && r[n].head == start[n].head && start[n].items <= r[n].items
  {
    if items != [] {
      PackKeepsStart(start, items[..|items| - 1], size);
    }
  }

  /** Every buffer opened by the packing starts empty and holds at least
      one item. */
  lemma {:induction false} PackNewChunks(start: seq<Chunk>, items: seq<bytes>, size: int)
    requires |start| > 0
    ensures forall k :: |start| <= k < |Pack(start, items, size)| ==>
              Pack(start, items, size)[k].head == [] && |Pack(start, items, size)[k].items| >= 1
  {
    if items != [] {
      var n := |items| - 1;
      var prev := Pack(start, items[..n], size);
      var r := Pack(start, items, size);
      assert r == Place(prev, items[n], size);
      PackNewChunks(start, items[..n], size);
      PlaceAt(prev, items[n], size);
      var m := |prev| - 1;
      forall k | |start| <= k < |r| ensures r[k].head == [] && |r[k].items| >= 1 {
        if k < m {
          assert r[k] == prev[k];
        } else if |Bytes(prev[m])| + |items[n]| > size {
          if k == m { assert r[k] == prev[k]; }
          else { assert k == m + 1; assert r[k] == Chunk([], [items[n]]); }
        } else {
          assert k == m;
          assert r[k] == Chunk(prev[m].head, prev[m].items + [items[n]]);
          assert prev[m].head == [];
        }
      }
    }
  }

  /** The soft size bound: a buffer over `size` is either an existing one
      that received nothing or holds a single item. In particular, a buffer
      holding two or more items is at most `size` bytes long. */
  lemma {:induction false} PackWithinSize(start: seq<Chunk>, items: seq<bytes>, size: int)
    requires |start| > 0
    requires forall k :: 0 <= k < |start| ==> start[k].items == []
    ensures forall k :: 0 <= k < |Pack(start, items, size)| ==> WithinSize(Pack(start, items, size)[k], size)
    ensures forall k :: 0 <= k < |Pack(start, items, size)| && |Pack(start, items, size)[k].items| >= 2 ==>
              |Bytes(Pack(start, items, size)[k])| <= size
  {
    if items != [] {
      var n := |items| - 1;
      PackWithinSize(start, items[..n], size);
      PlaceWithinSize(Pack(start, items[..n], size), items[n], size);
    }
  }

  /** One step keeps every buffer within the soft size bound. */
  lemma PlaceWithinSize(cs: seq<Chunk>, item: bytes, size: int)
    requires |cs| > 0
    requires forall k :: 0 <= k < |cs| ==> WithinSize(cs[k], size)
    requires forall k :: 0 <= k < |cs| && |cs[k].items| >= 2 ==> |Bytes(cs[k])| <= size
    ensures var r := Place(cs, item, size);
            (forall k :: 0 <= k < |r| ==> WithinSize(r[k], size))
            && (forall k :: 0 <= k < |r| && |r[k].items| >= 2 ==> |Bytes(r[k])| <= size)
  {
    var r := Place(cs, item, size);
    PlaceAt(cs, item, size);
    var m := |cs| - 1;
    if |Bytes(cs[m])| + |item| <= size {
      ConcatSnoc(cs[m].items, item);
      assert |Bytes(r[m])| <= size;
    } else {
      assert r[m + 1] == Chunk([], [item]);
    }
    forall k | 0 <= k < |r| ensures WithinSize(r[k], size) && (|r[k].items| >= 2 ==> |Bytes(r[k])| <= size) {
      if k < m { assert r[k] == cs[k]; }
    }
  }

  /** Greedy: a buffer is opened only because its first item did not fit
      into the buffer before it. */
  lemma {:induction false} PackGreedy(start: seq<Chunk>, items: seq<bytes>, size: int)
    requires |start| > 0
    ensures forall k :: |start| <= k < |Pack(start, items, size)| ==>
              |Pack(start, items, size)[k].items| > 0
              && |Bytes(Pack(start, items, size)[k - 1])| + |Pack(start, items, size)[k].items[0]| > size
  {
    if items != [] {
      var n := |items| - 1;
      PackGreedy(start, items[..n], size);
      PlaceGreedy(Pack(start, items[..n], size), items[n], size, |start|);
    }
  }

  /** One step keeps every buffer from `from` on opened greedily. */
  lemma PlaceGreedy(cs: seq<Chunk>, item: bytes, size: int, from: nat)
    requires 0 < from <= |cs|
    requires forall k :: from <= k < |cs| ==>
               |cs[k].items| > 0 && |Bytes(cs[k - 1])| + |cs[k].items[0]| > size
    ensures var r := Place(cs, item, size);
            forall k :: from <= k < |r| ==>
              |r[k].items| > 0 && |Bytes(r[k - 1])| + |r[k].items[0]| > size
  {
    var r := Place(cs, item, size);
    PlaceAt(cs, item, size);
    var m := |cs| - 1;
    forall k | from <= k < |r| ensures |r[k].items| > 0 && |Bytes(r[k - 1])| + |r[k].items[0]| > size {
      if k < m {
        assert r[k] == cs[k] && r[k - 1] == cs[k - 1];
      } else if k == m {
        assert r[k - 1] == cs[k - 1] && r[k].items[0] == cs[k].items[0];
      }
    }
  }

  /** Packing from a single empty buffer: the first buffer stays empty
      exactly when there is nothing to pack or the first item alone is
      longer than `size`. */
  lemma {:induction false} PackFirstEmpty(items: seq<bytes>, size: int)
    ensures Pack([Chunk([], [])], items, size)[0].items == [] <==> items == [] || |items[0]| > size
  {
    var start := [Chunk([], [])];
    var r := Pack(start, items, size);
    if |items| == 1 {
      assert items[..0] == [];
      assert Concat<bytes>([]) == [];
    } else if |items| > 1 {
      var n := |items| - 1;
      var prev := Pack(start, items[..n], size);
      PackFirstEmpty(items[..n], size);
      assert items[..n][0] == items[0];
      PlaceAt(prev, items[n], size);
      if |prev| == 1 {
        PackItems(start, items[..n], size);
        assert AllItems(start) == [] by {
          assert seq(1, k requires 0 <= k < 1 => start[k].items) == [[]];
          ConcatSingle<bytes>([]);
        }
        assert AllItems(prev) == prev[0].items by {
          assert seq(1, k requires 0 <= k < 1 => prev[k].items) == [prev[0].items];
          ConcatSingle(prev[0].items);
        }
        assert prev[0].items != [];
      } else {
        assert r[0] == prev[0];
      }
    }
  }

  /** When all items together fit, packing from one empty buffer puts them
      all into it. */
  lemma {:induction false} PackSingle(items: seq<bytes>, size: int)
    requires |Concat(items)| <= size
    ensures Pack([Chunk([], [])], items, size) == [Chunk([], items)]
  {
    if items == [] {
      assert Concat<bytes>([]) == [];
    } else {
      var n := |items| - 1;
      var init := items[..n];
      assert init + [items[n]] == items;
      ConcatSnoc(init, items[n]);
      PackSingle(init, size);
      var prev := [Chunk([], init)];
      assert Pack([Chunk([], [])], items, size) == Place(prev, items[n], size);
      assert Bytes(prev[0]) == Concat(init);
      assert Place(prev, items[n], size) == [Chunk([], init + [items[n]])];
    }
  }
}
