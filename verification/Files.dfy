/** A dump file as the byte at each offset. */
module Files {
  import opened Basics
  import opened Pages

  type File = nat -> byte

  /** `write_buffer` */
  function Written(file: File, offset: nat, buf: seq<byte>): (r: File) {
    (x: nat) => if offset <= x < offset + |buf| then buf[x - offset] else file(x)
  }

  /** The file has `s` at `base`. */
  ghost predicate Has(file: File, base: nat, s: seq<byte>) {
    forall k | 0 <= k < |s| :: file(base + k) == s[k]
  }

  /** Nothing outside `[lo, hi)` changed. */
  ghost predicate OnlyWithin(file: File, file': File, lo: nat, hi: nat) {
    forall x: nat | !(lo <= x < hi) :: file'(x) == file(x)
  }

  /** Nothing below `n` changed. */
  ghost predicate SameBelow(file: File, file': File, n: nat) {
    forall x: nat | x < n :: file'(x) == file(x)
  }

  lemma WithinIsAbove(file: File, file': File, lo: nat, hi: nat, n: nat)
    requires OnlyWithin(file, file', lo, hi) && n <= lo
    ensures SameBelow(file, file', n)
  {
  }

  lemma SameBelowTrans(f0: File, f1: File, f2: File, n: nat)
    requires SameBelow(f0, f1, n) && SameBelow(f1, f2, n)
    ensures SameBelow(f0, f2, n)
  {
  }

  /** A part of what the file has. */
  lemma PartOf(file: File, base: nat, s: seq<byte>, at: nat, size: nat)
    requires Has(file, base, s) && at + size <= |s|
    ensures Has(file, base + at, s[at..at + size])
  {
    var base', part := base + at, s[at..at + size];
    forall k | 0 <= k < |part|
      ensures file(base' + k) == part[k]
    {
      assert file(base + (at + k)) == s[at + k];
    }
  }

  function ZeroPage(): (r: seq<byte>)
    ensures |r| == PAGE_SIZE
  {
    seq(PAGE_SIZE, _ => 0)
  }
}
