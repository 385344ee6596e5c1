/** Shared vocabulary: bytes as Go sees them, optional values and results,
    the runtime panics the handlers can hit, sequence concatenation and
    "the last write to a slot wins". */
module Common {

  /** One byte of a Go `string` or `[]byte`. */
  newtype byte = b: int | 0 <= b < 256

  type bytes = seq<byte>

  datatype Option<+T> = None | Some(value: T)

  datatype Result<+T, +E> = Success(value: T) | Failure(error: E)

  /** The Go runtime panics the modelled code can raise. */
  datatype Panic =
    | IndexOutOfRange     // slice or array index past the end
    | NilDereference      // field access through a nil pointer
    | TypeAssertion       // `x.(T)` on a value of another dynamic type
    | Raised(error: Error) // `panic(e)` on an error value

  /** How a call ends: it returns a value, or the goroutine panics. */
  datatype Outcome<+T> = Returned(value: T) | Panicked(panic: Panic)

  /** An error value returned by code outside the model (network, JSON). */
  datatype Error = Error(message: string)

  /** Concatenation of all parts, in order (a `bytes.Buffer` written part by part). */
  function Concat<T>(parts: seq<seq<T>>): (r: seq<T>)
  {
    if parts == [] then [] else parts[0] + Concat(parts[1..])
  }

  lemma {:induction false} ConcatSnoc<T>(parts: seq<seq<T>>, last: seq<T>)
    ensures Concat(parts + [last]) == Concat(parts) + last
  {
    if parts == [] {
      assert [] + [last] == [last];
      assert [last][1..] == [];
    } else {
      assert (parts + [last])[1..] == parts[1..] + [last];
      ConcatSnoc(parts[1..], last);
    }
  }

  lemma {:induction false} ConcatCons<T>(first: seq<T>, rest: seq<seq<T>>)
    ensures Concat([first] + rest) == first + Concat(rest)
  {
    assert ([first] + rest)[1..] == rest;
  }

  lemma ConcatSingle<T>(part: seq<T>)
    ensures Concat([part]) == part
  {
    assert [part][1..] == [];
  }

  lemma {:induction false} ConcatAppend<T>(a: seq<seq<T>>, b: seq<seq<T>>)
    ensures Concat(a + b) == Concat(a) + Concat(b)
  {
    if a == [] {
      assert a + b == b;
    } else {
      assert (a + b)[1..] == a[1..] + b;
      ConcatAppend(a[1..], b);
    }
  }

  /** A write of `value` into slot `at`. */
  datatype Write<T> = Write(at: int, value: T)

  /** The value of the last write into slot `j`, if any: writes applied in
      order, a later one overwriting an earlier one. */
  function LastWrite<T>(writes: seq<Write<T>>, j: int): (r: Option<T>)
  {
    if writes == [] then None
    else if writes[|writes| - 1].at == j then Some(writes[|writes| - 1].value)
    else LastWrite(writes[..|writes| - 1], j)
  }

  /** A slot nobody writes keeps its value; a slot that is written ends up
      with the value of one of the writes into it, and no later write to it
      follows that one. */
  lemma {:induction false} LastWriteSpec<T>(writes: seq<Write<T>>, j: int)
    ensures LastWrite(writes, j).None? <==> forall k :: 0 <= k < |writes| ==> writes[k].at != j
    ensures LastWrite(writes, j).Some? ==>
      exists k :: 0 <= k < |writes| && writes[k].at == j && writes[k].value == LastWrite(writes, j).value
                  && forall l :: k < l < |writes| ==> writes[l].at != j
  {
    if writes != [] {
      var n := |writes| - 1;
      LastWriteSpec(writes[..n], j);
      if writes[n].at != j {
        if LastWrite(writes, j).Some? {
          var k :| 0 <= k < n && writes[..n][k].at == j && writes[..n][k].value == LastWrite(writes, j).value
                   && forall l :: k < l < n ==> writes[..n][l].at != j;
          assert writes[k] == writes[..n][k];
          assert forall l :: k < l < |writes| ==> writes[l].at != j by {
            forall l | k < l < |writes| ensures writes[l].at != j {
              if l < n { assert writes[l] == writes[..n][l]; }
            }
          }
        } else {
          forall k | 0 <= k < |writes| ensures writes[k].at != j {
            if k < n { assert writes[k] == writes[..n][k]; }
          }
        }
      }
    }
  }

  /** When no two writes share a slot, the value in slot `writes[k].at` is
      `writes[k].value`. */
  lemma LastWriteDistinct<T>(writes: seq<Write<T>>, k: int)
    requires 0 <= k < |writes|
    requires forall k1, k2 :: 0 <= k1 < k2 < |writes| ==> writes[k1].at != writes[k2].at
    ensures LastWrite(writes, writes[k].at) == Some(writes[k].value)
  {
    LastWriteSpec(writes, writes[k].at);
    var w := LastWrite(writes, writes[k].at);
    var k' :| 0 <= k' < |writes| && writes[k'].at == writes[k].at && writes[k'].value == w.value
              && forall l :: k' < l < |writes| ==> writes[l].at != writes[k].at;
    assert k' == k;
  }
}
