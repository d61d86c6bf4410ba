/** The persistent memory block of src/brickpico.c: its CRC, its start-up check, and what the
    check detects. */
module PersistentMemory {
  import opened Crc32

  const PERSISTENT_MEMORY_ID: bv32 := 0xbadd_ecaf

  /** The id is the first field, stored least significant byte first. */
  function IdOf(covered: seq<octet>): bv32
    requires |covered| >= 4
  {
    (covered[0] as bv32) | (covered[1] as bv32 << 8) | (covered[2] as bv32 << 16) | (covered[3] as bv32 << 24)
  }

  /** The four bytes of the id, and no others. */
  lemma IdBytes(covered: seq<octet>)
    requires |covered| >= 4
    ensures IdOf(covered) == PERSISTENT_MEMORY_ID <==>
            covered[0] == 0xaf && covered[1] == 0xec && covered[2] == 0xdd && covered[3] == 0xba
  {
    FourBytes(covered[0], covered[1], covered[2], covered[3]);
  }

  lemma FourBytes(a: octet, b: octet, c: octet, d: octet)
    ensures (a as bv32) | (b as bv32 << 8) | (c as bv32 << 16) | (d as bv32 << 24) == 0xbadd_ecaf
            <==> a == 0xaf && b == 0xec && c == 0xdd && d == 0xba
  {
  }

  /** The check at start-up: the id, and the CRC of the bytes before the crc32 field. */
  predicate Accepted(covered: seq<octet>, crc32: Word)
    requires |covered| >= 4
  {
    IdOf(covered) == PERSISTENT_MEMORY_ID && Crc(covered, ZERO) == crc32
  }

  class Block {
    const covered: array<octet>  // the fields before crc32, as bytes
    var crc32: Word
    const uptime: nat  // where in `covered` the eight bytes of each field lie
    const prevUptime: nat

    ghost predicate Valid() {
      && covered.Length >= 4
      && 4 <= uptime && uptime + 8 <= covered.Length
      && 4 <= prevUptime && prevUptime + 8 <= covered.Length
      && (uptime + 8 <= prevUptime || prevUptime + 8 <= uptime)
    }

    constructor (covered: array<octet>, crc32: Word, uptime: nat, prevUptime: nat)
      requires covered.Length >= 4 && 4 <= uptime && 4 <= prevUptime
      requires uptime + 8 <= covered.Length && prevUptime + 8 <= covered.Length
      requires uptime + 8 <= prevUptime || prevUptime + 8 <= uptime
      ensures Valid() && this.covered == covered && this.crc32 == crc32
      ensures this.uptime == uptime && this.prevUptime == prevUptime
    {
      this.covered := covered;
      this.crc32 := crc32;
      this.uptime := uptime;
      this.prevUptime := prevUptime;
    }

    method SaveUptime()
      requires Valid()
      modifies covered
      ensures covered[prevUptime..prevUptime + 8] == old(covered[uptime..uptime + 8])
      ensures forall i :: 0 <= i < covered.Length && !(prevUptime <= i < prevUptime + 8) ==> covered[i] == old(covered[i])
    {
      forall i | 0 <= i < 8 {
        covered[prevUptime + i] := covered[uptime + i];
      }
    }

    method Blank(blank: seq<octet>)
      requires |blank| == covered.Length
      modifies covered
      ensures covered[..] == blank
    {
      forall i | 0 <= i < covered.Length {
        covered[i] := blank[i];
      }
    }

    /** update_persistent_memory_crc. */
    method UpdateCrc()
      modifies this`crc32
      ensures crc32 == Crc(covered[..], ZERO)
    {
      crc32 := XCrc32(covered, covered.Length, ZERO);
      assert covered[..covered.Length] == covered[..];
    }

    /** init_persistent_memory; `blank` is the zeroed block with its id and an empty log ring.
        A block that passes the check is kept, but for the saved uptime; any other is made
        anew. Either way the block passes the check from then on. */
    method Init(blank: seq<octet>) returns (found: bool)
      requires Valid() && |blank| == covered.Length && IdOf(blank) == PERSISTENT_MEMORY_ID
      modifies this`crc32, covered
      ensures found <==> old(Accepted(covered[..], crc32))
      ensures found <==> old(covered[0] == 0xaf && covered[1] == 0xec && covered[2] == 0xdd && covered[3] == 0xba &&
                             Crc(covered[..], ZERO) == crc32)
      ensures covered[0] == 0xaf && covered[1] == 0xec && covered[2] == 0xdd && covered[3] == 0xba
      ensures Accepted(covered[..], crc32)
      ensures !found ==> covered[..] == blank
      ensures found ==> forall i :: 0 <= i < covered.Length && !(prevUptime <= i < prevUptime + 8) ==>
                          covered[i] == old(covered[i])
      ensures found ==> covered[prevUptime..prevUptime + 8] ==
                          old(if covered[uptime..uptime + 8] == ZEROS + ZEROS then covered[prevUptime..prevUptime + 8]
                              else covered[uptime..uptime + 8])
    {
      IdBytes(covered[..]);
      found := CheckAndInit(blank);
      IdBytes(covered[..]);
    }

    method CheckAndInit(blank: seq<octet>) returns (found: bool)
      requires Valid() && |blank| == covered.Length && IdOf(blank) == PERSISTENT_MEMORY_ID
      modifies this`crc32, covered
      ensures found <==> old(Accepted(covered[..], crc32))
      ensures Accepted(covered[..], crc32)
      ensures !found ==> covered[..] == blank
      ensures found ==> forall i :: 0 <= i < covered.Length && !(prevUptime <= i < prevUptime + 8) ==>
                          covered[i] == old(covered[i])
      ensures found ==> covered[prevUptime..prevUptime + 8] ==
                          old(if covered[uptime..uptime + 8] == ZEROS + ZEROS then covered[prevUptime..prevUptime + 8]
                              else covered[uptime..uptime + 8])
    {
      if IdOf(covered[..]) == PERSISTENT_MEMORY_ID {
        var crc := XCrc32(covered, covered.Length, ZERO);
        assert covered[..covered.Length] == covered[..];
        if crc == crc32 {
          if covered[uptime..uptime + 8] != ZEROS + ZEROS {
            SaveUptime();
            UpdateCrc();
          }
          return true;
        }
      }
      Blank(blank);
      UpdateCrc();
      return false;
    }
  }

  /** A change confined to four consecutive covered bytes always fails the check. */
  lemma TamperedWindowRejected(p: seq<octet>, w: seq<octet>, w': seq<octet>, s: seq<octet>, crc32: Word)
    requires |p + w + s| >= 4 && |w| == |w'| <= 4 && w != w'
    requires Accepted(p + w + s, crc32)
    ensures !Accepted(p + w' + s, crc32)
  {
    WindowDetected(p, w, w', s, ZERO);
  }

  /** Of changes of five bytes past the id, exactly these are not noticed. */
  lemma TamperedFiveBytesExactly(p: seq<octet>, w: seq<octet>, w': seq<octet>, s: seq<octet>, crc32: Word)
    requires |p| >= 4 && |w| == |w'| == 5 && Accepted(p + w + s, crc32)
    ensures Accepted(p + w' + s, crc32) <==>
            Missed(Difference(w[0], w'[0]), Difference(w[1], w'[1]), Difference(w[2], w'[2]), Difference(w[3], w'[3]), Difference(w[4], w'[4]))
  {
    FiveBytesCollideExactly(p, w, w', s, ZERO);
    assert (p + w + s)[..4] == (p + w' + s)[..4];
  }

  /** There always are some. */
  lemma TamperedFiveBytesAccepted(p: seq<octet>, w: seq<octet>, s: seq<octet>, crc32: Word)
    requires |p| >= 4 && |w| == 5 && Accepted(p + w + s, crc32)
    ensures Colliding(w) != w && Accepted(p + Colliding(w) + s, crc32)
  {
    FiveBytesCanCollide(p, w, s, ZERO);
    assert (p + w + s)[..4] == (p + Colliding(w) + s)[..4];
  }
}
