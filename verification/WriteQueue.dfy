/** The write queue of a session and the choice of the batch that one gathered write sends. */
module WriteQueue {
  import opened Sequences
  import opened BigEndian
  import opened Wire

  const MAX_IOV_PER_WRITE: nat := 32
  const MAX_BATCH_BYTES: nat := 256 * 1024

  datatype WriteData = WriteData(header: seq<Byte>, body: seq<Byte>, totalBytes: nat)

  function MakeItem(f: Frame): WriteData {
    WriteData(Header(f), f.body, HEADER_SIZE + |f.body|)
  }

  function Items(fs: seq<Frame>): (q: seq<WriteData>)
    ensures |q| == |fs| && forall i :: 0 <= i < |fs| ==> q[i] == MakeItem(fs[i])
  {
    seq(|fs|, i requires 0 <= i < |fs| => MakeItem(fs[i]))
  }

  lemma ItemsSplit(fs: seq<Frame>, k: nat)
    requires k <= |fs|
    ensures Items(fs)[..k] == Items(fs[..k]) && Items(fs)[k..] == Items(fs[k..])
  {
    hide MakeItem;
  }

  /** The buffers one item takes in a gathered write. */
  function Iov(it: WriteData): nat {
    if it.body == [] then 1 else 2
  }

  function TotalIov(q: seq<WriteData>): nat {
    if q == [] then 0 else TotalIov(q[..|q| - 1]) + Iov(q[|q| - 1])
  }

  function TotalBytes(q: seq<WriteData>): nat {
    if q == [] then 0 else TotalBytes(q[..|q| - 1]) + q[|q| - 1].totalBytes
  }

  function Flatten(q: seq<WriteData>): seq<Byte> {
    if q == [] then [] else Flatten(q[..|q| - 1]) + (q[|q| - 1].header + q[|q| - 1].body)
  }

  /** A batch within the limits; a single item is sent whatever its size. */
  predicate Fits(batch: seq<WriteData>) {
    |batch| == 1 || (TotalIov(batch) <= MAX_IOV_PER_WRITE && TotalBytes(batch) <= MAX_BATCH_BYTES)
  }

  ghost predicate IsLongestBatch(q: seq<WriteData>, k: nat) {
    1 <= k <= |q| && Fits(q[..k]) && forall j :: k < j <= |q| ==> !Fits(q[..j])
  }

  /** The longest batch among the first `k` items, searched from the long end. */
  function LongestWithin(q: seq<WriteData>, k: nat): (n: nat)
    requires 1 <= k <= |q|
    ensures 1 <= n <= k
  {
    if k == 1 || Fits(q[..k]) then k else LongestWithin(q, k - 1)
  }

  function LongestBatch(q: seq<WriteData>): nat
    requires q != []
  {
    LongestWithin(q, |q|)
  }

  lemma {:induction false} LongestWithinIsLongest(q: seq<WriteData>, k: nat)
    requires 1 <= k <= |q| && forall j :: k < j <= |q| ==> !Fits(q[..j])
    ensures IsLongestBatch(q, LongestWithin(q, k))
  {
    if k == 1 || Fits(q[..k]) {
    } else {
      LongestWithinIsLongest(q, k - 1);
    }
  }

  lemma LongestIsUnique(q: seq<WriteData>, k: nat)
    requires IsLongestBatch(q, k)
    ensures k == LongestBatch(q)
  {
    LongestWithinIsLongest(q, |q|);
  }

  // ---------- Sums over the queue ----------

  lemma SumsOfPush(q: seq<WriteData>, it: WriteData)
    ensures TotalIov(q + [it]) == TotalIov(q) + Iov(it)
    ensures TotalBytes(q + [it]) == TotalBytes(q) + it.totalBytes
    ensures Flatten(q + [it]) == Flatten(q) + (it.header + it.body)
  {
    assert (q + [it])[..|q|] == q;
  }

  lemma {:induction false} SumsOfSplit(q: seq<WriteData>, k: nat)
    requires k <= |q|
    ensures TotalIov(q) == TotalIov(q[..k]) + TotalIov(q[k..])
    ensures TotalBytes(q) == TotalBytes(q[..k]) + TotalBytes(q[k..])
    ensures Flatten(q) == Flatten(q[..k]) + Flatten(q[k..])
  {
    hide TotalIov, TotalBytes, Flatten;
    if k == |q| {
      assert q[..k] == q && q[k..] == [];
      SumsOfNone();
      assert Flatten(q) == Flatten(q) + [];
    } else {
      var p, it := q[..|q| - 1], q[|q| - 1];
      SumsOfSplit(p, k);
      assert q == p + [it] && p[..k] == q[..k] && q[k..] == p[k..] + [it];
      SumsOfPush(p, it);
      SumsOfPush(p[k..], it);
      Associative(Flatten(p[..k]), Flatten(p[k..]), it.header + it.body);
    }
  }

  lemma SumsOfNone()
    ensures TotalIov([]) == 0 && TotalBytes([]) == 0 && Flatten([]) == []
  {
  }

  /** The queue of some frames holds exactly their serialisation, and counts its bytes. */
  lemma {:induction false} ItemsAreFrames(fs: seq<Frame>)
    ensures Flatten(Items(fs)) == SerializeAll(fs)
    ensures TotalBytes(Items(fs)) == |SerializeAll(fs)|
  {
    hide TotalIov, TotalBytes, Flatten, Header;
    SumsOfNone();
    if fs == [] {
      assert Items(fs) == [];
    } else {
      var p, f := fs[..|fs| - 1], fs[|fs| - 1];
      ItemsAreFrames(p);
      assert Items(fs) == Items(p) + [MakeItem(f)];
      SumsOfPush(Items(p), MakeItem(f));
      SerializeAllAppend(p, [f]);
      SerializeAllOne(f);
      assert fs == p + [f];
      assert |SerializeAll(fs)| == |SerializeAll(p)| + |Serialize(f)|;
    }
  }

  /** Once an item does not fit, no longer batch does. */
  lemma NoLongerBatch(q: seq<WriteData>, k: nat)
    requires 1 <= k < |q| && !Fits(q[..k + 1])
    ensures forall j :: k < j <= |q| ==> !Fits(q[..j])
  {
    forall j | k < j <= |q| ensures !Fits(q[..j]) {
      SumsOfSplit(q[..j], k + 1);
      assert q[..j][..k + 1] == q[..k + 1];
    }
  }
}
