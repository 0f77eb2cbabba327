/** The queue the region stands for: its Active records, oldest first. */
module Fifo {
  import opened Types
  import opened Slots

  function RetireAt(f: Region, i: nat): (g: Region)
    requires i < |f| && f[i].Active?
    ensures |g| == |f| && ActiveCount(g) == ActiveCount(f) - 1
  {
    CountAfterUpdate(f, i, Acknowledged(Some(f[i].record)), |f|);
    f[i := Acknowledged(Some(f[i].record))]
  }

  /** Repeatedly take the oldest Active record. */
  function Contents(f: Region): (records: seq<Record>)
    ensures |records| == ActiveCount(f)
    decreases ActiveCount(f)
  {
    match Oldest(f)
    case None => assert ActiveCount(f) == 0; []
    case Some(i) => [f[i].record] + Contents(RetireAt(f, i))
  }

  /** What is retired, erased or corrupt does not matter. */
  lemma {:induction false} OnlyActiveMatters(f: Region, g: Region)
    requires SameActive(f, g)
    ensures Contents(f) == Contents(g)
    decreases ActiveCount(f)
  {
    SameActiveOldest(f, g);
    if Oldest(f).Some? {
      var i := Oldest(f).value;
      OnlyActiveMatters(RetireAt(f, i), RetireAt(g, i));
    }
  }

  /** A record newer than every Active one joins at the back, whichever slot it lands in. */
  lemma {:induction false} PutEnqueues(f: Region, i: nat, r: Record)
    requires i < |f| && !f[i].Active?
    requires forall j :: 0 <= j < |f| && f[j].Active? ==> f[j].record.sequence < r.sequence
    ensures Contents(f[i := Active(r)]) == Contents(f) + [r]
    decreases ActiveCount(f)
  {
    hide OldestBelow, ActiveBelow;
    var g := f[i := Active(r)];
    OldestAfterPut(f, i, r);
    if Oldest(f) != None {
      var o := Oldest(f).value;
      PutEnqueues(RetireAt(f, o), i, r);
      assert RetireAt(g, o) == RetireAt(f, o)[i := Active(r)];
    }
  }

  lemma OldestAfterPut(f: Region, i: nat, r: Record)
    requires i < |f| && !f[i].Active?
    requires forall j :: 0 <= j < |f| && f[j].Active? ==> f[j].record.sequence < r.sequence
    ensures var g := f[i := Active(r)];
            match Oldest(f)
            case None => Oldest(g) == Some(i) && Contents(RetireAt(g, i)) == []
            case Some(o) => Oldest(g) == Some(o) && o < |f| && f[o].Active? && o != i
  {
    var g := f[i := Active(r)];
    if Oldest(f) == None {
      OldestIs(g, i);
      var h := RetireAt(g, i);
      assert forall j :: 0 <= j < |h| ==> !h[j].Active?;
      assert Oldest(h) == None;
    } else {
      OldestIs(g, Oldest(f).value);
    }
  }

  lemma RetireDequeues(f: Region)
    requires Oldest(f).Some?
    ensures Contents(f) != [] && Contents(f)[0] == f[Oldest(f).value].record
    ensures Contents(RetireAt(f, Oldest(f).value)) == Contents(f)[1..]
  {}

  /** The contents are exactly the Active records, ... */
  lemma {:induction false} ContentsAreActive(f: Region, r: Record)
    ensures r in Contents(f) <==> exists i :: 0 <= i < |f| && f[i] == Active(r)
    decreases ActiveCount(f)
  {
    if Oldest(f).Some? {
      var o := Oldest(f).value;
      var g := RetireAt(f, o);
      ContentsAreActive(g, r);
      assert forall i :: 0 <= i < |f| && i != o ==> f[i] == g[i];
      assert Contents(f) == [f[o].record] + Contents(g);
      if exists i :: 0 <= i < |f| && f[i] == Active(r) {
        var i :| 0 <= i < |f| && f[i] == Active(r);
        if i != o {
          assert g[i] == Active(r);
        }
      }
    }
  }

  ghost predicate Distinct(f: Region) {
    forall i, j :: 0 <= i < j < |f| && f[i].Decodable() && f[j].Decodable() ==> f[i].Sequence() != f[j].Sequence()
  }

  ghost predicate Ascending(records: seq<Record>) {
    forall i, j :: 0 <= i < j < |records| ==> records[i].sequence < records[j].sequence
  }

  /** ... in strictly ascending order of sequence. */
  lemma {:induction false} ContentsAscend(f: Region)
    requires Distinct(f)
    ensures Ascending(Contents(f))
    decreases ActiveCount(f)
  {
    if Oldest(f).Some? {
      var o := Oldest(f).value;
      var g := RetireAt(f, o);
      ContentsAscend(g);
      var rest := Contents(g);
      forall k | 0 <= k < |rest| ensures f[o].record.sequence < rest[k].sequence {
        ContentsAreActive(g, rest[k]);
        var i :| 0 <= i < |g| && g[i] == Active(rest[k]);
        assert i != o && f[i] == g[i];
      }
      assert Contents(f) == [f[o].record] + rest;
    }
  }
}
