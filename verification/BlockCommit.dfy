/** `bdrv_commit` (block.c): copying an overlay's own sectors into its backing
    image must not change what the guest sees, at any point and on any exit. */
module BlockCommit {

  /** The contents of one sector; 0 is a sector of zeroes. */
  type Data = nat
  const ZEROES: Data := 0

  const COMMIT_BUF_SECTORS: nat := 2048

  datatype Errno = Success | ENOMEDIUM | ENOTSUP | EBUSY | EACCES | EIO | ENOMEM

  /** What a sector reads as: the overlay's own data, else the backing image's, else
      zeroes behind the end of the backing image. */
  function SectorAt(own: map<nat, Data>, backing: seq<Data>, s: nat): (r: Data) {
    if s in own then own[s] else if s < |backing| then backing[s] else ZEROES
  }

  /** The guest's view of an overlay of `length` sectors. */
  function View(own: map<nat, Data>, backing: seq<Data>, length: nat): (r: seq<Data>)
    ensures |r| == length && forall s | 0 <= s < length :: r[s] == SectorAt(own, backing, s)
  {
    seq(length, s requires 0 <= s < length => SectorAt(own, backing, s))
  }

  class Overlay {
    const hasDriver: bool
    const hasBacking: bool
    const sourceBlocked: bool     // BLOCK_OP_TYPE_COMMIT_SOURCE on the overlay
    const targetBlocked: bool     // BLOCK_OP_TYPE_COMMIT_TARGET on the backing image
    const canMakeEmpty: bool      // the driver has bdrv_make_empty
    const length: nat             // sectors of the overlay
    var own: map<nat, Data>
    var backing: seq<Data>
    var readOnly: bool            // of the backing image

    ghost function Visible(): (r: seq<Data>)
      reads this
    {
      View(own, backing, length)
    }

    /** Every sector of the overlay below `n` that is its own is in the backing
        image as well. */
    ghost predicate CopiedBelow(n: nat)
      reads this
    {
      forall s | s in own && s < n && s < length :: s < |backing| && backing[s] == own[s]
    }

    constructor (hasDriver: bool, hasBacking: bool, sourceBlocked: bool, targetBlocked: bool, canMakeEmpty: bool,
                 length: nat, own: map<nat, Data>, backing: seq<Data>, readOnly: bool)
      ensures this.own == own && this.backing == backing && this.length == length && this.readOnly == readOnly
    {
      this.hasDriver, this.hasBacking, this.sourceBlocked := hasDriver, hasBacking, sourceBlocked;
      this.targetBlocked, this.canMakeEmpty, this.length := targetBlocked, canMakeEmpty, length;
      this.own, this.backing, this.readOnly := own, backing, readOnly;
    }

    /** `bdrv_is_allocated`: whether the sector is the overlay's own, and a run of
        sectors of the same kind, however long the driver chooses. */
    method IsAllocated(sector: nat) returns (isOwn: bool, n: nat)
      requires sector < length
      ensures 0 < n <= COMMIT_BUF_SECTORS && sector + n <= length
      ensures forall s | sector <= s < sector + n :: s in own <==> isOwn
    {
      isOwn := sector in own;
      n := 1;
      while n < COMMIT_BUF_SECTORS && sector + n < length && (sector + n in own <==> isOwn)
        invariant 0 < n <= COMMIT_BUF_SECTORS && sector + n <= length
        invariant forall s | sector <= s < sector + n :: s in own <==> isOwn
      {
        if * {
          break;
        }
        n := n + 1;
      }
    }

    /** `bdrv_truncate` on the backing image; new sectors read as zeroes. */
    method GrowBacking() returns (ok: bool)
      requires |backing| < length
      modifies this`backing
      ensures Visible() == old(Visible()) && |old(backing)| <= |backing|
      ensures ok ==> |backing| == length
      ensures !ok ==> backing == old(backing)
    {
      if * {
        return false;
      }
      backing := backing + seq(length - |backing|, _ => ZEROES);
      assert forall s | 0 <= s < length :: SectorAt(own, backing, s) == SectorAt(own, old(backing), s);
      return true;
    }

    /** `bdrv_read` from the overlay and `bdrv_write` to the backing image. A write
        that fails may leave anything in the sectors it was to write. */
    method CopyRun(sector: nat, n: nat) returns (ok: bool)
      requires sector + n <= length <= |backing|
      requires forall s | sector <= s < sector + n :: s in own
      modifies this`backing
      ensures |backing| == |old(backing)|
      ensures forall s | 0 <= s < |backing| && !(sector <= s < sector + n) :: backing[s] == old(backing)[s]
      ensures ok ==> forall s | sector <= s < sector + n :: backing[s] == own[s]
    {
      if * {
        return false;
      }
      var i := 0;
      while i < n
        invariant i <= n && |backing| == |old(backing)|
        invariant forall s | 0 <= s < |backing| && !(sector <= s < sector + n) :: backing[s] == old(backing)[s]
        invariant forall s | sector <= s < sector + i :: backing[s] == own[s]
      {
        if * {
          var torn: Data := *;
          backing := backing[sector + i := torn];
          return false;
        }
        backing := backing[sector + i := own[sector + i]];
        i := i + 1;
      }
      return true;
    }

    /** `bdrv_make_empty`; a failure may have dropped some sectors already. */
    method MakeEmpty() returns (ok: bool)
      requires CopiedBelow(length) && forall s | s in own :: s < length
      modifies this`own
      ensures Visible() == old(Visible()) && own.Keys <= old(own).Keys
      ensures ok ==> own == map[]
    {
      var left := own;
      while left != map[]
        invariant left.Keys <= old(own).Keys && forall s | s in left :: left[s] == old(own)[s]
        decreases |left|
      {
        if * {
          own := left;
          SameView(old(own), own, backing, length);
          return false;
        }
        var s :| s in left;
        left := left - {s};
      }
      own := map[];
      SameView(old(own), own, backing, length);
      return true;
    }

    /** `bdrv_commit` */
    method Commit() returns (ret: Errno)
      requires forall s | s in own :: s < length
      modifies this
      ensures Visible() == old(Visible())
      ensures ret == ENOMEDIUM <==> !hasDriver
      ensures ret == ENOTSUP <==> hasDriver && !hasBacking
      ensures ret == EBUSY <==> hasDriver && hasBacking && (sourceBlocked || targetBlocked)
      ensures ret == EACCES ==> old(readOnly)
      ensures ret in {ENOMEDIUM, ENOTSUP, EBUSY, EACCES} ==>
                own == old(own) && backing == old(backing) && readOnly == old(readOnly)
      ensures ret == Success ==>
                && length <= |backing| && backing[..length] == old(Visible())
                && own == if canMakeEmpty then map[] else old(own)
      ensures own.Keys <= old(own).Keys && |backing| >= |old(backing)|
    {
      if !hasDriver {
        return ENOMEDIUM;
      }
      if !hasBacking {
        return ENOTSUP;
      }
      if sourceBlocked || targetBlocked {
        return EBUSY;
      }
      var ro := readOnly;
      if ro {
        if * {
          return EACCES;
        }
        readOnly := false;
      }
      ret := CommitWritable();
      if ro {
        // The reopen back to read-only may fail; its result is ignored.
        if * {
          readOnly := true;
        }
      }
    }

    /** `bdrv_commit` between the two reopens of the backing image. */
    method CommitWritable() returns (ret: Errno)
      requires forall s | s in own :: s < length
      modifies this`own, this`backing
      ensures Visible() == old(Visible()) && ret in {Success, EIO, ENOMEM}
      ensures ret == Success ==>
                && length <= |backing| && backing[..length] == old(Visible())
                && own == if canMakeEmpty then map[] else old(own)
      ensures own.Keys <= old(own).Keys && |backing| >= |old(backing)|
    {
      if * {
        return EIO;   // bdrv_getlength of either image
      }
      if length > |backing| {
        var ok := GrowBacking();
        if !ok {
          return EIO;
        }
      }
      if * {
        return ENOMEM;
      }
      var sector := 0;
      while sector < length
        invariant sector <= length <= |backing| && own == old(own) && |backing| >= |old(backing)|
        invariant Visible() == old(Visible()) && CopiedBelow(sector)
      {
        if * {
          return EIO;   // bdrv_is_allocated
        }
        var isOwn, n := IsAllocated(sector);
        if isOwn {
          ghost var b0 := backing;
          var ok := CopyRun(sector, n);
          CopyKeepsView(own, b0, backing, length, sector, n);
          if !ok {
            return EIO;
          }
        }
        sector := sector + n;
      }
      AllCopied(own, backing, length);
      if canMakeEmpty {
        var ok := MakeEmpty();
        if !ok {
          return EIO;
        }
      }
      return Success;
    }
  }

  /** Dropping sectors that the backing image has as well changes nothing. */
  lemma SameView(own: map<nat, Data>, own': map<nat, Data>, backing: seq<Data>, length: nat)
    requires own'.Keys <= own.Keys && forall s | s in own' :: own'[s] == own[s]
    requires forall s | s in own && s < length :: s < |backing| && backing[s] == own[s]
    ensures View(own', backing, length) == View(own, backing, length)
  {
    forall s | 0 <= s < length
      ensures SectorAt(own', backing, s) == SectorAt(own, backing, s)
    {
    }
  }

  /** Whatever happens to the backing image under sectors of the overlay's own. */
  lemma CopyKeepsView(own: map<nat, Data>, b0: seq<Data>, b1: seq<Data>, length: nat, sector: nat, n: nat)
    requires |b0| == |b1| && forall s | sector <= s < sector + n :: s in own
    requires forall s | 0 <= s < |b1| && !(sector <= s < sector + n) :: b1[s] == b0[s]
    ensures View(own, b1, length) == View(own, b0, length)
  {
    forall s | 0 <= s < length
      ensures SectorAt(own, b1, s) == SectorAt(own, b0, s)
    {
    }
  }

  lemma AllCopied(own: map<nat, Data>, backing: seq<Data>, length: nat)
    requires length <= |backing| && forall s | s in own && s < length :: backing[s] == own[s]
    ensures backing[..length] == View(own, backing, length)
  {
  }
}
