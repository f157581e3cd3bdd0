/**
 * The replication-lag arithmetic of `Checker` in turnipp.py: `__in_bytes`,
 * which turns an xlog location `"<hex logid>/<hex offset>"` into a number,
 * and `check`, which subtracts the replica's replay location from the
 * master's current location and reports the difference in kilobytes, or
 * -1 when anything fails. The two database queries are abstracted as the
 * text they return, `None` standing for any exception on that side
 * (connecting, querying, fetching, committing, closing, or a NULL result).
 */
module Turnipp {
  import opened Wrappers
  import opened Hex
  import opened PyText
  import opened PyInt

  /** What `check` returns when anything fails. */
  const Failed: int := -1

  /** `check` reports kilobytes. */
  const KiB: int := 1024

  /**
   * The number `__in_bytes` computes from the two halves. The weight of one
   * log id is 0xFFFFFFFF, as written, not the 2^32 bytes a log id spans.
   */
  function Magnitude(logid: int, offset: int): int {
    0xFFFFFFFF * logid + offset
  }

  /**
   * `__in_bytes(xlog)`: the two-way unpacking of `xlog.split('/')` needs
   * exactly one `/`, and `int(half, 16)` must accept both halves.
   */
  function InBytes(xlog: string): (r: Option<int>)
    ensures r.Some? ==> Count(xlog, '/') == 1
  {
    var halves := Split(xlog, '/');
    if |halves| != 2 then None
    else
      match (ParseHexInt(halves[0]), ParseHexInt(halves[1]))
      case (Some(logid), Some(offset)) => Some(Magnitude(logid, offset))
      case _ => None
  }

  /** One side's location as a number: the fetch must succeed and `__in_bytes` must accept its text. */
  function Position(fetched: Option<string>): Option<int> {
    match fetched
    case None => None
    case Some(xlog) => InBytes(xlog)
  }

  /**
   * `check()`: the master's position minus the replica's, floor-divided by
   * 1024 (Python 2 `/` on integers), or `Failed` if either side fails.
   */
  function Check(master: Option<string>, slave: Option<string>): (lag: int)
    ensures Position(master).None? || Position(slave).None? ==> lag == Failed
    ensures Position(master).Some? && Position(slave).Some? ==>
      var delta := Position(master).value - Position(slave).value;
      KiB * lag <= delta < KiB * lag + KiB
  {
    match (Position(master), Position(slave))
    case (Some(m), Some(s)) => (m - s) / KiB
    case _ => Failed
  }

  /** A location with halves free of `/` is read half by half. */
  lemma InBytesOfHalves(logid: string, offset: string)
    requires '/' !in logid && '/' !in offset
    ensures InBytes(logid + "/" + offset) ==
      match (ParseHexInt(logid), ParseHexInt(offset))
      case (Some(l), Some(o)) => Some(Magnitude(l, o))
      case _ => None
  {
    SplitJoin([logid, offset], '/');
    assert Join([logid, offset], '/') == logid + "/" + offset;
  }

  /** A `/` in the text of an accepted half is impossible. */
  lemma NoSlashInLiteral(lit: HexLiteral)
    requires lit.Valid()
    ensures '/' !in lit.Text()
  {
    Layout(lit);
    var a := |lit.lead|;
    var b := a + |SignText(lit.sign)|;
    var c := b + |lit.gap|;
    var d := c + |lit.prefix|;
    LaidOutChars(lit.Text(), a, b, c, d, d + |lit.digits|);
  }

  /** Two halves in the grammar of `int(_, 16)` joined by `/` give the scaled sum of their values. */
  lemma InBytesAccepts(logid: HexLiteral, offset: HexLiteral)
    requires logid.Valid() && offset.Valid()
    ensures InBytes(logid.Text() + "/" + offset.Text()) == Some(Magnitude(logid.Value(), offset.Value()))
  {
    NoSlashInLiteral(logid);
    NoSlashInLiteral(offset);
    ParseHexIntAccepts(logid);
    ParseHexIntAccepts(offset);
    InBytesOfHalves(logid.Text(), offset.Text());
  }

  /** Every location `__in_bytes` accepts is two such halves joined by `/`. */
  lemma InBytesAcceptsOnly(xlog: string) returns (logid: HexLiteral, offset: HexLiteral)
    requires InBytes(xlog).Some?
    ensures logid.Valid() && offset.Valid()
    ensures xlog == logid.Text() + "/" + offset.Text()
    ensures InBytes(xlog).value == Magnitude(logid.Value(), offset.Value())
  {
    var halves := Split(xlog, '/');
    assert Join(halves, '/') == halves[0] + "/" + halves[1];
    logid := ParseHexIntOnlyLiterals(halves[0]);
    offset := ParseHexIntOnlyLiterals(halves[1]);
  }

  /** For plain hexadecimal halves A and B, `__in_bytes("A/B")` is 0xFFFFFFFF * A + B. */
  lemma InBytesPlainHex(logid: string, offset: string)
    requires IsHex(logid) && IsHex(offset)
    ensures InBytes(logid + "/" + offset) == Some(Magnitude(HexValue(logid), HexValue(offset)))
  {
    ParseHexIntPlain(logid);
    ParseHexIntPlain(offset);
    InBytesOfHalves(logid, offset);
  }

  /** A location as PostgreSQL prints it (`%X/%X`) is read back as the scaled sum of its two numbers. */
  lemma InBytesOfServerText(logid: nat, offset: nat)
    ensures InBytes(ToHex(logid) + "/" + ToHex(offset)) == Some(Magnitude(logid, offset))
  {
    InBytesPlainHex(ToHex(logid), ToHex(offset));
  }

  /** A location without `/`, or with more than one, makes `check` fail whatever the other side gives. */
  lemma CheckFailsOnSlashCount(xlog: string)
    requires Count(xlog, '/') != 1
    ensures forall other :: Check(Some(xlog), other) == Failed && Check(other, Some(xlog)) == Failed
  {
    assert InBytes(xlog) == None;
  }

  /** A half `int(_, 16)` cannot read: empty, or holding a character outside its grammar. */
  predicate Unreadable(half: string) {
    |half| == 0 || exists k :: 0 <= k < |half| && !IsLiteralChar(half[k])
  }

  /** An unreadable half makes `__in_bytes` fail, and with it `check`, whatever the other side gives. */
  lemma CheckFailsOnUnreadableHalf(logid: string, offset: string)
    requires '/' !in logid && '/' !in offset
    requires Unreadable(logid) || Unreadable(offset)
    ensures InBytes(logid + "/" + offset) == None
    ensures forall other :: Check(Some(logid + "/" + offset), other) == Failed
    ensures forall other :: Check(other, Some(logid + "/" + offset)) == Failed
  {
    forall half | half == logid || half == offset
      ensures Unreadable(half) ==> ParseHexInt(half) == None
    {
      if Unreadable(half) && ParseHexInt(half).Some? {
        if |half| == 0 {
          ParseHexIntNeedsDigit(half);
        } else {
          var k :| 0 <= k < |half| && !IsLiteralChar(half[k]);
          ParseHexIntRejectsForeignChar(half, k);
        }
      }
    }
    InBytesOfHalves(logid, offset);
  }

  /** With the same log id, a larger offset gives a strictly larger magnitude. */
  lemma InBytesMonotoneInOffset(logid: string, offset1: string, offset2: string)
    requires IsHex(logid) && IsHex(offset1) && IsHex(offset2)
    requires HexValue(offset1) < HexValue(offset2)
    ensures InBytes(logid + "/" + offset1).Some? && InBytes(logid + "/" + offset2).Some?
    ensures InBytes(logid + "/" + offset1).value < InBytes(logid + "/" + offset2).value
  {
    InBytesPlainHex(logid, offset1);
    InBytesPlainHex(logid, offset2);
  }

  /** With the same offset, a larger log id gives a strictly larger magnitude. */
  lemma InBytesMonotoneInLogId(logid1: string, logid2: string, offset: string)
    requires IsHex(logid1) && IsHex(logid2) && IsHex(offset)
    requires HexValue(logid1) < HexValue(logid2)
    ensures InBytes(logid1 + "/" + offset).Some? && InBytes(logid2 + "/" + offset).Some?
    ensures InBytes(logid1 + "/" + offset).value < InBytes(logid2 + "/" + offset).value
  {
    InBytesPlainHex(logid1, offset);
    InBytesPlainHex(logid2, offset);
  }

  /** A location with plain hexadecimal halves has a non-negative magnitude. */
  lemma InBytesNonNegative(logid: string, offset: string)
    requires IsHex(logid) && IsHex(offset)
    ensures InBytes(logid + "/" + offset).Some? && InBytes(logid + "/" + offset).value >= 0
  {
    InBytesPlainHex(logid, offset);
  }

  /**
   * While offsets stay below 0xFFFFFFFF the magnitude orders locations as
   * (log id, offset) pairs: the log id dominates, and distinct pairs never
   * collide.
   */
  lemma MagnitudeOrder(logid1: int, offset1: int, logid2: int, offset2: int)
    requires 0 <= offset1 < 0xFFFFFFFF && 0 <= offset2 < 0xFFFFFFFF
    ensures Magnitude(logid1, offset1) < Magnitude(logid2, offset2) <==>
      logid1 < logid2 || (logid1 == logid2 && offset1 < offset2)
    ensures Magnitude(logid1, offset1) == Magnitude(logid2, offset2) <==>
      logid1 == logid2 && offset1 == offset2
  {
    if logid1 < logid2 {
      assert 0xFFFFFFFF * logid1 + 0xFFFFFFFF <= 0xFFFFFFFF * logid2;
    } else if logid2 < logid1 {
      assert 0xFFFFFFFF * logid2 + 0xFFFFFFFF <= 0xFFFFFFFF * logid1;
    }
  }

  /** Locations printed by the server compare, after `__in_bytes`, as their (log id, offset) pairs. */
  lemma ServerLocationsOrdered(logid1: nat, offset1: nat, logid2: nat, offset2: nat)
    requires offset1 < 0xFFFFFFFF && offset2 < 0xFFFFFFFF
    ensures var m1, m2 := InBytes(ToHex(logid1) + "/" + ToHex(offset1)), InBytes(ToHex(logid2) + "/" + ToHex(offset2));
      && m1.Some? && m2.Some?
      && (m1.value < m2.value <==> logid1 < logid2 || (logid1 == logid2 && offset1 < offset2))
  {
    InBytesOfServerText(logid1, offset1);
    InBytesOfServerText(logid2, offset2);
    MagnitudeOrder(logid1, offset1, logid2, offset2);
  }

  /**
   * Offset 0xFFFFFFFF of one log id and offset 0 of the next have the same
   * magnitude, so `check` reports no lag between them.
   */
  lemma CollisionAcrossLogIds(logid: nat)
    ensures var first, next := ToHex(logid) + "/" + ToHex(0xFFFFFFFF), ToHex(logid + 1) + "/" + ToHex(0);
      && InBytes(first) == InBytes(next)
      && Check(Some(next), Some(first)) == 0
  {
    InBytesOfServerText(logid, 0xFFFFFFFF);
    InBytesOfServerText(logid + 1, 0);
    MagnitudeCarry(logid);
    var first, next := ToHex(logid) + "/" + ToHex(0xFFFFFFFF), ToHex(logid + 1) + "/" + ToHex(0);
    CheckSamePosition(Some(next), Some(first));
  }

  /** The last offset of a log id weighs as much as the first of the next. */
  lemma MagnitudeCarry(logid: int)
    ensures Magnitude(logid, 0xFFFFFFFF) == Magnitude(logid + 1, 0)
  {
  }

  /** Two sides whose locations have the same magnitude give a lag of 0. */
  lemma CheckSamePosition(master: Option<string>, slave: Option<string>)
    requires Position(master).Some? && Position(master) == Position(slave)
    ensures Check(master, slave) == 0
  {
  }

  /** The same accepted location on both sides gives a lag of 0. */
  lemma CheckSameLocation(xlog: string)
    requires InBytes(xlog).Some?
    ensures Check(Some(xlog), Some(xlog)) == 0
  {
    CheckSamePosition(Some(xlog), Some(xlog));
  }

  /**
   * `check` returns the failure value exactly when a side fails or the
   * replica is 1 to 1024 bytes ahead of the master: the two cannot be told apart.
   */
  lemma CheckFailedAmbiguous(master: Option<string>, slave: Option<string>)
    ensures Check(master, slave) == Failed <==>
      || Position(master).None? || Position(slave).None?
      || -KiB <= Position(master).value - Position(slave).value <= -1
  {
  }

  /** Master at 1/A0 and replica at 1/50 are 80 bytes apart, which is 0 whole kilobytes. */
  lemma ExampleSameLogId(master: string, slave: string)
    requires master == "1/A0" && slave == "1/50"
    ensures InBytes(master) == Some(0xFFFFFFFF + 0xA0)
    ensures InBytes(slave) == Some(0xFFFFFFFF + 0x50)
    ensures Check(Some(master), Some(slave)) == 0
  {
    assert ToHex(1) + "/" + ToHex(0xA0) == master;
    assert ToHex(1) + "/" + ToHex(0x50) == slave;
    InBytesOfServerText(1, 0xA0);
    InBytesOfServerText(1, 0x50);
  }

  /** 2/0 and 1/FFFFFFFF both read as 8589934590, so `check` reports no lag between them. */
  lemma ExampleCollision(master: string, slave: string)
    requires master == "2/0" && slave == "1/FFFFFFFF"
    ensures InBytes(master) == Some(8589934590)
    ensures InBytes(slave) == Some(8589934590)
    ensures Check(Some(master), Some(slave)) == 0
  {
    assert ToHex(2) + "/" + ToHex(0) == master;
    assert ToHex(1) + "/" + ToHex(0xFFFFFFFF) == slave;
    InBytesOfServerText(2, 0);
    InBytesOfServerText(1, 0xFFFFFFFF);
    CheckSamePosition(Some(master), Some(slave));
  }

  /** A location without `/` fails the check, and so does a failed fetch on either side. */
  lemma ExampleFailures(xlog: string, other: Option<string>)
    requires xlog == "abc"
    ensures Check(Some(xlog), other) == Failed
    ensures Check(other, None) == Failed && Check(None, other) == Failed
  {
    assert Count(xlog, '/') == 0 by {
      assert Count("abc", '/') == 0;
    }
  }
}
