/** Which index entries go when the store holds more than its record limit. */
module Eviction {
  import opened Bytes
  import opened Records
  import opened Logs

  const PENALTY_MULTIPLIER: nat := 10
  const PENALTY_OFFSET: nat := 3
  /** The first ttl at which a penalty wraps, that of priority 255. */
  const WRAPPING_TTL: nat := 434_549_658

  function EffectiveTtl(e: Entry, policyTtl: Uint32): Uint32 {
    if e.ttl.Get() > 0 then e.ttl.Get() else policyTtl
  }

  /** Multiplication of `uint32_t` values. */
  function Mul32(a: nat, b: nat): Uint32 {
    Wrap32(a * b)
  }

  /** The time-to-live penalty of a priority, in 32-bit unsigned arithmetic. */
  function Penalty(priority: Byte, ttl: Uint32): Uint32 {
    Mul32(Mul32(ttl / (priority as int + PENALTY_OFFSET), priority), PENALTY_MULTIPLIER)
  }

  function EntryPenalty(e: Entry, policyTtl: Uint32): Uint32 {
    Penalty(e.priority, EffectiveTtl(e, policyTtl))
  }

  /** The comparison the source makes, in 64-bit arithmetic that cannot wrap. */
  predicate EvictsBefore(a: Entry, b: Entry, policyTtl: Uint32) {
    a.ts as int + EntryPenalty(b, policyTtl) as int < b.ts as int + EntryPenalty(a, policyTtl) as int
  }

  /** The comparison orders entries by timestamp minus penalty, whatever the penalty wraps to. */
  function Score(e: Entry, policyTtl: Uint32): int {
    e.ts as int - EntryPenalty(e, policyTtl) as int
  }

  lemma EvictsBeforeIsStrictWeakOrder(a: Entry, b: Entry, c: Entry, policyTtl: Uint32)
    ensures EvictsBefore(a, b, policyTtl) <==> Score(a, policyTtl) < Score(b, policyTtl)
    ensures !EvictsBefore(a, a, policyTtl)
    ensures EvictsBefore(a, b, policyTtl) && EvictsBefore(b, c, policyTtl) ==> EvictsBefore(a, c, policyTtl)
    ensures EvictsBefore(a, b, policyTtl) ==> EvictsBefore(a, c, policyTtl) || EvictsBefore(c, b, policyTtl)
  {
  }

  /** The penalty in integers. */
  function IntegerPenalty(priority: Byte, ttl: Uint32): int {
    ttl / (priority as int + PENALTY_OFFSET) * priority * PENALTY_MULTIPLIER
  }

  lemma MulMonotone(q: nat, a: nat, b: nat)
    requires a <= b
    ensures q * a <= q * b
  {
  }

  lemma QuotientBounds(ttl: nat, d: nat)
    requires d > 0
    ensures ttl / d * d <= ttl < ttl / d * d + d
  {
    assert ttl == d * (ttl / d) + ttl % d;
  }

  lemma PenaltyModulo(priority: Byte, ttl: Uint32)
    ensures 0 <= IntegerPenalty(priority, ttl)
              && Penalty(priority, ttl) == IntegerPenalty(priority, ttl) % 0x1_0000_0000
  {
    var d := priority as int + PENALTY_OFFSET;
    QuotientBounds(ttl, d);
    MulMonotone(ttl / d, priority, d);
  }

  lemma ProductFits(q: nat, p: nat, d: nat, ttl: nat)
    requires q * d <= ttl < WRAPPING_TTL && 257 * p <= 254 * d
    ensures q * p * PENALTY_MULTIPLIER < 0x1_0000_0000
  {
    MulMonotone(q, 257 * p, 254 * d);
    assert q * (257 * p) == 257 * (q * p);
    assert q * (254 * d) == 254 * (q * d);
  }

  lemma PenaltyFits(priority: Byte, ttl: Uint32)
    requires ttl < WRAPPING_TTL
    ensures IntegerPenalty(priority, ttl) < 0x1_0000_0000
  {
    var d := priority as int + PENALTY_OFFSET;
    QuotientBounds(ttl, d);
    if priority < 255 {
      ProductFits(ttl / d, priority, d, ttl);
    }
  }

  lemma PenaltyOverflows(ttl: Uint32)
    requires WRAPPING_TTL <= ttl
    ensures 0x1_0000_0000 <= IntegerPenalty(255, ttl)
  {
    QuotientBounds(ttl, 258);
  }

  /** The 32-bit penalty is the integer one for every priority exactly below a ttl of 434549658 seconds. */
  lemma PenaltyExact(ttl: Uint32)
    ensures (forall p: Byte :: Penalty(p, ttl) == IntegerPenalty(p, ttl)) <==> ttl < WRAPPING_TTL
  {
    hide Penalty, IntegerPenalty;
    forall p: Byte
      ensures 0 <= IntegerPenalty(p, ttl) && Penalty(p, ttl) == IntegerPenalty(p, ttl) % 0x1_0000_0000
      ensures ttl < WRAPPING_TTL ==> IntegerPenalty(p, ttl) < 0x1_0000_0000
    {
      PenaltyModulo(p, ttl);
      if ttl < WRAPPING_TTL {
        PenaltyFits(p, ttl);
      }
    }
    if WRAPPING_TTL <= ttl {
      PenaltyOverflows(ttl);
      assert Penalty(255, ttl) != IntegerPenalty(255, ttl);
    }
  }

  /** Timestamp minus penalty, both in integers, the penalty that of an entry's own ttl, or of the store's where it has
      none. */
  function IntendedScore(e: Entry, policyTtl: Uint32): int {
    e.ts as int - IntegerPenalty(e.priority, if e.ttl.Get() > 0 then e.ttl.Get() else policyTtl)
  }

  /** The order the source intends. */
  predicate IntendedBefore(a: Entry, b: Entry, policyTtl: Uint32) {
    IntendedScore(a, policyTtl) < IntendedScore(b, policyTtl)
  }

  /** An entry without a ttl of its own. */
  function Ranked(priority: Byte, ts: Uint32): (e: Entry)
    ensures e.priority == priority && e.ts == ts && e.ttl == Uint24(0, 0, 0)
  {
    Entry(0, Uint24(0, 0, 0), ts, Uint24(0, 0, 0), priority)
  }

  lemma RankedOrder(p: Byte, ts: Uint32, q: Byte, later: Uint32, policyTtl: Uint32)
    ensures var a, b := Ranked(p, ts), Ranked(q, later);
      && (EvictsBefore(a, b, policyTtl) <==> ts + Penalty(q, policyTtl) < later + Penalty(p, policyTtl))
      && (IntendedBefore(a, b, policyTtl) <==>
            ts - IntegerPenalty(p, policyTtl) < later - IntegerPenalty(q, policyTtl))
  {
    hide Penalty, IntegerPenalty, Ranked, Uint24.Get;
    NoTtl(Ranked(p, ts));
    NoTtl(Ranked(q, later));
  }

  lemma NoTtl(e: Entry)
    requires e.ttl == Uint24(0, 0, 0)
    ensures e.ttl.Get() == 0
  {
  }

  lemma NoPenalty(ttl: Uint32)
    ensures Penalty(0, ttl) == 0 == IntegerPenalty(0, ttl)
  {
  }

  /** A wrapped penalty keeps an entry that should have gone first. */
  lemma WrongOrder(policyTtl: Uint32)
    requires WRAPPING_TTL <= policyTtl
    ensures var a, b := Ranked(255, Penalty(255, policyTtl)), Ranked(0, 0);
      IntendedBefore(a, b, policyTtl) && !EvictsBefore(a, b, policyTtl)
  {
    hide Penalty, IntegerPenalty, Ranked, EvictsBefore, IntendedBefore;
    RankedOrder(255, Penalty(255, policyTtl), 0, 0, policyTtl);
    PenaltyModulo(255, policyTtl);
    PenaltyOverflows(policyTtl);
    NoPenalty(policyTtl);
  }

  lemma WrappedPenalties()
    ensures Penalty(255, WRAPPING_TTL) == 254 && IntegerPenalty(255, WRAPPING_TTL) == 4_294_967_550
    ensures Penalty(1, WRAPPING_TTL) == IntegerPenalty(1, WRAPPING_TTL) == 1_086_374_140
  {
  }

  /** At the first wrapping ttl, of two entries of the same age, priority 255 outlives priority 1. */
  lemma WrongOrderOfEquals(ts: Uint32)
    ensures var a, b := Ranked(255, ts), Ranked(1, ts);
      IntendedBefore(a, b, WRAPPING_TTL) && EvictsBefore(b, a, WRAPPING_TTL)
  {
    hide Penalty, IntegerPenalty, Ranked, EvictsBefore, IntendedBefore;
    RankedOrder(255, ts, 1, ts, WRAPPING_TTL);
    RankedOrder(1, ts, 255, ts, WRAPPING_TTL);
    WrappedPenalties();
  }

  /** The order of two entries is as intended unless one of them has no ttl of its own and the store's wraps. */
  lemma PairIsIntended(a: Entry, b: Entry, policyTtl: Uint32)
    requires policyTtl < WRAPPING_TTL || (a.ttl.Get() > 0 && b.ttl.Get() > 0)
    ensures EvictsBefore(a, b, policyTtl) <==> IntendedBefore(a, b, policyTtl)
  {
    hide Penalty, IntegerPenalty;
    PenaltyExact(EffectiveTtl(a, policyTtl));
    PenaltyExact(EffectiveTtl(b, policyTtl));
  }

  /** Entries keep 24 bits of their own ttl, so only the store's can be large enough to wrap.  All entries are ranked
      as intended exactly when it is not. */
  lemma OrderIsIntended(policyTtl: Uint32)
    ensures (forall a: Entry, b: Entry :: EvictsBefore(a, b, policyTtl) <==> IntendedBefore(a, b, policyTtl))
       <==> policyTtl < WRAPPING_TTL
  {
    hide Penalty, IntegerPenalty;
    if policyTtl < WRAPPING_TTL {
      forall a: Entry, b: Entry
        ensures EvictsBefore(a, b, policyTtl) <==> IntendedBefore(a, b, policyTtl)
      {
        PairIsIntended(a, b, policyTtl);
      }
    } else {
      WrongOrder(policyTtl);
    }
  }

  /** The store's ttl does not matter between entries that have their own. */
  lemma OwnTtlCounts(a: Entry, b: Entry, p: Uint32, q: Uint32)
    requires a.ttl.Get() > 0 && b.ttl.Get() > 0
    ensures EvictsBefore(a, b, p) <==> EvictsBefore(a, b, q)
  {
    hide Penalty, IntegerPenalty;
    PairIsIntended(a, b, p);
    PairIsIntended(a, b, q);
  }

  /** No retained entry is intended to go before an evicted one. */
  lemma BottomIsIntended(ix: Index, rest: Index, policyTtl: Uint32)
    requires Submap(rest, ix) && BottomSet(ix, rest, policyTtl) && policyTtl < WRAPPING_TTL
    ensures forall r, e :: r in rest && e in ix && e !in rest ==> !IntendedBefore(ix[r], ix[e], policyTtl)
  {
    hide EvictsBefore, IntendedBefore;
    forall r, e | r in rest && e in ix && e !in rest
      ensures !IntendedBefore(ix[r], ix[e], policyTtl)
    {
      PairIsIntended(ix[r], ix[e], policyTtl);
    }
  }

  /** `rest` is what is left of `ix` after evicting a bottom set of the order down to the limit. */
  ghost predicate PrunedTo(ix: Index, rest: Index, maxRecs: nat, policyTtl: Uint32) {
    && Submap(rest, ix)
    && (maxRecs == 0 || |ix| <= maxRecs ==> rest == ix)
    && (maxRecs > 0 && |ix| > maxRecs ==> |rest| == maxRecs)
    && BottomSet(ix, rest, policyTtl)
  }

  /** No retained entry ranks before an evicted one. */
  ghost predicate BottomSet(ix: Index, rest: Index, policyTtl: Uint32) {
    forall r, e :: r in rest && r in ix && e in ix && e !in rest ==> !EvictsBefore(ix[r], ix[e], policyTtl)
  }

  /** The single scan: an entry that none ranks before. */
  method FirstToEvict(ix: Index, policyTtl: Uint32) returns (k: Key)
    requires ix != map[]
    ensures k in ix
    ensures forall j :: j in ix ==> !EvictsBefore(ix[j], ix[k], policyTtl)
  {
    k :| k in ix;
    var todo := ix.Keys - {k};
    while todo != {}
      invariant k in ix && todo <= ix.Keys
      invariant forall j :: j in ix && j !in todo ==> !EvictsBefore(ix[j], ix[k], policyTtl)
      decreases todo
    {
      var j :| j in todo;
      todo := todo - {j};
      if EvictsBefore(ix[j], ix[k], policyTtl) {
        k := j;
      }
    }
  }

  lemma RemoveOne(ix: Index, k: Key)
    requires k in ix
    ensures |ix - {k}| == |ix| - 1
  {
  }

  /** Evicting the first entry of what is left keeps the evicted ones a bottom set. */
  lemma BottomSetStep(ix: Index, rest: Index, k: Key, policyTtl: Uint32)
    requires Submap(rest, ix) && BottomSet(ix, rest, policyTtl)
    requires k in rest && forall j :: j in rest ==> !EvictsBefore(rest[j], rest[k], policyTtl)
    ensures Submap(rest - {k}, ix) && BottomSet(ix, rest - {k}, policyTtl)
  {
  }

  /** The bulk path: the `count` entries that rank first. */
  method EvictFirst(ix: Index, count: nat, policyTtl: Uint32) returns (rest: Index)
    requires count <= |ix|
    ensures Submap(rest, ix) && |rest| == |ix| - count && BottomSet(ix, rest, policyTtl)
  {
    rest := ix;
    for i := 0 to count
      invariant Submap(rest, ix) && |rest| == |ix| - i && BottomSet(ix, rest, policyTtl)
    {
      var k := FirstToEvict(rest, policyTtl);
      BottomSetStep(ix, rest, k, policyTtl);
      RemoveOne(rest, k);
      rest := rest - {k};
    }
  }
}
