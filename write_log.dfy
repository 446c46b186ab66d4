/**
 * The plain element-by-element loop that every write-back kernel must be
 * indistinguishable from: writes applied to a flat buffer in order, so that the
 * last write to an index wins and unwritten indices keep their old value.
 */
module WriteLog {
  import opened Words

  datatype Option<T> = None | Some(value: T)

  /** One element store `buffer[index] = value`. */
  datatype Write = Write(index: nat, value: u16)

  /** Every write of `w` targets an index below `n`. */
  predicate InBounds(w: seq<Write>, n: nat)
    decreases |w|
  {
    w == [] || (InBounds(w[..|w| - 1], n) && w[|w| - 1].index < n)
  }

  /** Each write of an in-bounds sequence is in bounds. */
  lemma {:induction false} InBoundsAt(w: seq<Write>, n: nat, k: nat)
    requires InBounds(w, n) && k < |w|
    ensures w[k].index < n
    decreases |w|
  {
    if k < |w| - 1 {
      InBoundsAt(w[..|w| - 1], n, k);
    }
  }

  /** A sequence whose writes are each in bounds is in bounds. */
  lemma {:induction false} InBoundsAll(w: seq<Write>, n: nat)
    requires forall k :: 0 <= k < |w| ==> w[k].index < n
    ensures InBounds(w, n)
    decreases |w|
  {
    if w != [] {
      InBoundsAll(w[..|w| - 1], n);
    }
  }

  /** The buffer after performing the writes `w` one after the other. */
  function Apply(s: seq<u16>, w: seq<Write>): (r: seq<u16>)
    requires InBounds(w, |s|)
    ensures |r| == |s|
    decreases |w|
  {
    if w == [] then s
    else
      var last := w[|w| - 1];
      Apply(s, w[..|w| - 1])[last.index := last.value]
  }

  /** The value of the last write to index `k`, if any write targets it. */
  function LastWrite(w: seq<Write>, k: nat): (r: Option<u16>)
    ensures r.None? <==> forall j :: 0 <= j < |w| ==> w[j].index != k
    ensures r.Some? ==> exists j :: 0 <= j < |w| && w[j] == Write(k, r.value)
    decreases |w|
  {
    if w == [] then None
    else if w[|w| - 1].index == k then Some(w[|w| - 1].value)
    else
      var r := LastWrite(w[..|w| - 1], k);
      assert forall j :: 0 <= j < |w| - 1 ==> w[..|w| - 1][j] == w[j];
      r
  }

  /** Element `k` after the writes is the last value written to it, or its old value. */
  lemma {:induction false} ApplyAt(s: seq<u16>, w: seq<Write>, k: nat)
    requires InBounds(w, |s|) && k < |s|
    ensures Apply(s, w)[k] == match LastWrite(w, k) case Some(v) => v case None => s[k]
    decreases |w|
  {
    if w != [] {
      var init := w[..|w| - 1];
      ApplyAt(s, init, k);
      if w[|w| - 1].index != k {
        assert LastWrite(w, k) == LastWrite(init, k);
      }
    }
  }

  /** A write to `k` that no later write to `k` follows is the last write to `k`. */
  lemma {:induction false} LastWriteIsLast(w: seq<Write>, k: nat, j: nat)
    requires j < |w| && w[j].index == k
    requires forall j' :: j < j' < |w| ==> w[j'].index != k
    ensures LastWrite(w, k) == Some(w[j].value)
    decreases |w|
  {
    if j < |w| - 1 {
      LastWriteIsLast(w[..|w| - 1], k, j);
    }
  }

  /** A write that no later write overwrites is what the buffer holds in the end. */
  lemma LastWriterWins(s: seq<u16>, w: seq<Write>, j: nat)
    requires InBounds(w, |s|) && j < |w|
    requires forall j' :: j < j' < |w| ==> w[j'].index != w[j].index
    ensures w[j].index < |s| && Apply(s, w)[w[j].index] == w[j].value
  {
    var k := w[j].index;
    InBoundsAt(w, |s|, j);
    ApplyAt(s, w, k);
    LastWriteIsLast(w, k, j);
  }

  /** An index that no write targets keeps its old value. */
  lemma Untouched(s: seq<u16>, w: seq<Write>, k: nat)
    requires InBounds(w, |s|) && k < |s|
    requires forall j :: 0 <= j < |w| ==> w[j].index != k
    ensures Apply(s, w)[k] == s[k]
  {
    ApplyAt(s, w, k);
  }

  /** Applying one more write updates exactly its index. */
  lemma ApplySnoc(s: seq<u16>, w: seq<Write>, x: Write)
    requires InBounds(w, |s|) && x.index < |s|
    ensures InBounds(w + [x], |s|)
    ensures Apply(s, w + [x]) == Apply(s, w)[x.index := x.value]
  {
    assert (w + [x])[..|w|] == w;
  }
}
