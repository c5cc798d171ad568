/** Memory of a kernel: local buffers for every input and phase, and global memory for
    the output, with a count of the writes to each element. */
module KernelMemory {

  /** GetBufId: the buffer of input p in a phase, one for both phases if they share it. */
  function BufId(shared: seq<bool>, p: nat, phase: nat): (b: nat)
    requires p < |shared| && phase < 2
    ensures b < 2 * |shared|
  {
    2 * p + if shared[p] then 0 else phase
  }

  function Copies<V>(v: V, n: nat): (s: seq<V>)
    ensures |s| == n && forall i :: 0 <= i < n ==> s[i] == v
  {
    seq(n, _ => v)
  }

  /** b with its first elements replaced by s. */
  function Overwritten<V>(b: seq<V>, s: seq<V>): (r: seq<V>)
    requires |s| <= |b|
    ensures |r| == |b| && forall k :: 0 <= k < |b| ==> r[k] == if k < |s| then s[k] else b[k]
  {
    s + b[|s|..]
  }

  class Output<V> {
    const data: array<V>
    const writes: array<nat>

    ghost predicate Sized(length: nat) {
      data.Length == writes.Length == length && (data as object) != (writes as object)
    }

    ghost predicate Apart(other: object) {
      other != (data as object) && other != (writes as object)
    }

    constructor (d: array<V>)
      ensures data == d && fresh(writes) && Sized(d.Length)
      ensures forall j :: 0 <= j < writes.Length ==> writes[j] == 0
    {
      data := d;
      writes := new nat[d.Length](_ => 0);
    }
  }

  /** The n elements from position from on have received their values, each once more. */
  ghost predicate Written<V>(values: seq<V>, data: seq<V>, data': seq<V>, writes: seq<nat>, writes': seq<nat>,
                             from: nat, n: nat)
  {
    && |values| == |data| == |data'| == |writes| == |writes'| && from + n <= |data|
    && (forall j {:trigger data'[j]} :: 0 <= j < |data| ==>
          data'[j] == if from <= j < from + n then values[j] else data[j])
    && (forall j {:trigger writes'[j]} :: 0 <= j < |writes| ==>
          writes'[j] == if from <= j < from + n then writes[j] + 1 else writes[j])
  }

  lemma NothingWritten<V>(values: seq<V>, data: seq<V>, writes: seq<nat>, from: nat)
    requires |values| == |data| == |writes| && from <= |data|
    ensures Written(values, data, data, writes, writes, from, 0)
  {}

  lemma WrittenOne<V>(values: seq<V>, d0: seq<V>, d: seq<V>, w0: seq<nat>, w: seq<nat>, from: nat, k: nat)
    requires Written(values, d0, d, w0, w, from, k) && from + k < |d0|
    ensures Written(values, d0, d[from + k := values[from + k]], w0, w[from + k := w[from + k] + 1], from, k + 1)
  {}

  /** Consecutive ranges written one after the other are one range. */
  lemma WrittenThen<V>(values: seq<V>, d0: seq<V>, d1: seq<V>, d2: seq<V>, w0: seq<nat>, w1: seq<nat>, w2: seq<nat>,
                       from: nat, n: nat, m: nat)
    requires Written(values, d0, d1, w0, w1, from, n) && Written(values, d1, d2, w1, w2, from + n, m)
    ensures Written(values, d0, d2, w0, w2, from, n + m)
  {}

  /** All elements written once, from no writes at all. */
  lemma WrittenWhole<V>(values: seq<V>, d0: seq<V>, d: seq<V>, w0: seq<nat>, w: seq<nat>)
    requires Written(values, d0, d, w0, w, 0, |values|) && forall j :: 0 <= j < |w0| ==> w0[j] == 0
    ensures d == values && forall j :: 0 <= j < |w| ==> w[j] == 1
  {}
}
