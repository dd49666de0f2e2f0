/**
 The quality of a link (uc6LoWPANMeshManipulation.c and ucEtxImpl.h): a packet reception
 rate in 255ths, an expected number of transmissions in 16ths, and 8-bit counters of
 beacons and unicasts since the last estimate.
 The arithmetic wraps where the source's does; the lemmas say when it does not.
 */
module LinkQuality {
  import opened LowpanTypes

  const ETX_ONE: nat := 16
  const ETX_INFINITE: uint16 := 0xffff
  const INITIAL_ETX: uint16 := 32
  const PRR_ONE: byte := 255
  const MAX_MISSED_BROADCASTS: nat := 10
  const MAX_UNACKED_UNICASTS: nat := 30
  const MIN_BROADCASTS: nat := 2
  const MIN_UNICASTS: nat := 8

  datatype Quality = Quality(
    etx: uint16,
    lastBeaconSeqNo: byte,
    received: byte,
    missed: byte,
    acked: byte,
    unacked: byte,
    inPrr: byte)

  const RESET_QUALITY := Quality(ETX_INFINITE, 0, 0, 0, 0, 0, 0)

  /** The part of a link that its reports change; init: no estimate was made since the last reset. */
  datatype Estimate = Estimate(init: bool, quality: Quality)

  // ---------------------------------------------------------------------------
  // Arithmetic
  // ---------------------------------------------------------------------------

  function U8(x: int): byte {
    x % 0x100
  }

  function U16(x: int): uint16 {
    x % 0x1_0000
  }

  function PrrToEtx(prr: byte): uint16 {
    if prr == 0 then ETX_INFINITE else PRR_ONE * ETX_ONE / prr
  }

  function EtxToPrr(etx: uint16): byte {
    if etx <= ETX_ONE then PRR_ONE
    else if etx == ETX_INFINITE then 0
    else U8(PRR_ONE * ETX_ONE / etx)
  }

  function PrrFromCounts(received: byte, total: byte): byte
    requires total > 0
  {
    U8(U16(PRR_ONE * received) / total)
  }

  /** A reception rate moves by three sixteenths of its distance from a sample, rounded down. */
  predicate PrrMoves(prr: int, sample: int, r: int) {
    16 * (r - prr) <= 3 * (sample - prr) < 16 * (r - prr) + 16
  }

  /** An ETX moves by an eighth of its distance from a sample, rounded down. */
  predicate EtxMoves(etx: int, sample: int, r: int) {
    8 * (r - etx) <= sample - etx < 8 * (r - etx) + 8
  }

  function IntegratePrr(prr: byte, sample: byte): (r: byte)
    ensures PrrMoves(prr, sample, r)
  {
    U8((prr * 13 + sample * 3) / 16)
  }

  function IntegrateEtx(etx: uint16, sample: uint16): (r: uint16)
    ensures EtxMoves(etx, sample, r)
  {
    U16((etx * 14 + sample * 2) / 16)
  }

  // ---------------------------------------------------------------------------
  // Reports
  // ---------------------------------------------------------------------------

  function RecomputeFromBeacons(e: Estimate): Estimate {
    var q := e.quality;
    var total := U8(q.received + q.missed);
    if total < MIN_BROADCASTS then
      e
    else
      var etx := if e.init then INITIAL_ETX else q.etx;
      var prr := IntegratePrr(if e.init then EtxToPrr(INITIAL_ETX) else q.inPrr, PrrFromCounts(q.received, total));
      Estimate(false, q.(inPrr := prr, etx := IntegrateEtx(etx, PrrToEtx(prr)), received := 0, missed := 0))
  }

  function AfterBeacon(e: Estimate, seqNo: byte): Estimate {
    var restart := !e.init && e.quality.etx >= ETX_INFINITE;
    var q := if restart then e.quality.(lastBeaconSeqNo := U8(seqNo - 1)) else e.quality;
    var missed := U8(seqNo - q.lastBeaconSeqNo - 1);
    var counted :=
      if missed > MAX_MISSED_BROADCASTS then Estimate(true, RESET_QUALITY.(received := 1))
      else Estimate(e.init || restart, q.(received := U8(q.received + 1), missed := U8(q.missed + missed)));
    var r := RecomputeFromBeacons(counted);
    r.(quality := r.quality.(lastBeaconSeqNo := seqNo))
  }

  /** The ETX that the unicasts since the last recomputation suggest. */
  function UnicastSample(acked: byte, total: byte): uint16 {
    if acked == 0 then U16((total + 1) * ETX_ONE) else U16(total * ETX_ONE) / acked
  }

  function RecomputeFromUnicasts(e: Estimate): Estimate {
    var q := e.quality;
    var total := U8(q.acked + q.unacked);
    if total < MIN_UNICASTS || e.init then
      e
    else
      var sample := UnicastSample(q.acked, total);
      var next := if q.acked == 0 then q else q.(acked := 0, unacked := 0);
      e.(quality := next.(etx := IntegrateEtx(if q.etx == ETX_INFINITE then INITIAL_ETX else q.etx, sample)))
  }

  function AfterUnicast(e: Estimate, acked: bool): Estimate {
    var q := e.quality;
    if acked then
      RecomputeFromUnicasts(e.(quality := q.(acked := U8(q.acked + 1))))
    else if U8(q.unacked + 1) > MAX_UNACKED_UNICASTS then
      e.(quality := q.(etx := ETX_INFINITE, acked := 0, unacked := 0))
    else
      RecomputeFromUnicasts(e.(quality := q.(unacked := U8(q.unacked + 1))))
  }

  datatype Report = Beacon(seqNo: byte) | Unicast(acked: bool)

  function After(e: Estimate, r: Report): Estimate {
    match r
    case Beacon(seqNo) => AfterBeacon(e, seqNo)
    case Unicast(acked) => AfterUnicast(e, acked)
  }

  // ---------------------------------------------------------------------------
  // Bounds
  // ---------------------------------------------------------------------------

  /** The acked unicasts that may pile up while a link has no estimate. */
  const MAX_PENDING_ACKS: nat := 224

  ghost predicate EtxOk(etx: uint16) {
    etx == ETX_INFINITE || ETX_ONE <= etx <= 1020
  }

  /** What holds of a link's estimate in every run of allowed reports. */
  ghost predicate EstimateOk(e: Estimate) {
    var q := e.quality;
    && EtxOk(q.etx)
    && (q.inPrr == 0 || q.inPrr >= 4)
    && q.missed == 0 && q.received <= 1
    && q.unacked <= MAX_UNACKED_UNICASTS
    && q.acked <= MAX_PENDING_ACKS
  }

  /** An ack for a link that has no estimate does not make more than bound of them pending. */
  predicate AckFits(e: Estimate, r: Report, bound: nat) {
    r.Unicast? && r.acked && e.init ==> e.quality.acked < bound
  }

  /** No more acks for a link that has no estimate once the counter is at its bound. */
  predicate Allowed(e: Estimate, r: Report) {
    AckFits(e, r, MAX_PENDING_ACKS)
  }

  /** No sum of counters and no product exceeds its width; a division by zero is excluded by
      the preconditions of the functions. */
  ghost predicate NothingWraps(e: Estimate, r: Report) {
    var q := e.quality;
    match r
    case Beacon(seqNo) =>
      q.received + 1 <= 0xff && q.missed + MAX_MISSED_BROADCASTS <= 0xff
      && q.received + 1 + q.missed + MAX_MISSED_BROADCASTS <= 0xff
    case Unicast(acked) =>
      q.acked + 1 <= 0xff && q.unacked + 1 <= 0xff
      && q.acked + q.unacked + 1 <= 0xff && (q.acked + q.unacked + 2) * ETX_ONE <= 0xffff
  }

  /** An integrated value lies between the old value and the sample. */
  lemma EtxIntegratedBetween(etx: uint16, sample: uint16)
    ensures var r := IntegrateEtx(etx, sample);
            if etx <= sample then etx <= r <= sample else sample <= r <= etx
  {
  }

  lemma PrrIntegratedBetween(prr: byte, sample: byte)
    ensures var r := IntegratePrr(prr, sample);
            if prr <= sample then prr <= r <= sample else sample <= r <= prr
  {
  }

  lemma PrrToEtxBounds(prr: byte)
    requires prr >= 4
    ensures ETX_ONE <= PrrToEtx(prr) <= 1020
  {
    DivBounds(PRR_ONE * ETX_ONE, prr, ETX_ONE, 1020);
  }

  /** lo <= a / d <= hi, from the products. */
  lemma {:induction false} DivBounds(a: nat, d: nat, lo: nat, hi: nat)
    requires d > 0 && lo * d <= a <= hi * d
    ensures lo <= a / d <= hi
  {
    var q, r := a / d, a % d;
    assert a == d * q + r;
    MulGrows(d, hi, q);
    MulGrows(d, q, lo);
  }

  lemma {:induction false} MulGrows(d: nat, a: nat, b: nat)
    ensures a < b ==> d * a + d <= d * b
  {
    if a < b {
      var k: nat := b - a - 1;
      assert d * b == d * (a + 1 + k) == d * a + d + d * k;
    }
  }

  /** One or two beacons received and at most ten missed. */
  lemma {:induction false} PrrSampleBounds(received: byte, missed: byte)
    requires 1 <= received <= 2 && missed <= MAX_MISSED_BROADCASTS
    ensures 23 <= PrrFromCounts(received, received + missed) <= PRR_ONE
  {
    DivBounds(PRR_ONE * received, received + missed, 23, PRR_ONE);
  }

  lemma {:induction false} BeaconKeepsOk(e: Estimate, seqNo: byte)
    requires EstimateOk(e)
    ensures EstimateOk(AfterBeacon(e, seqNo)) && NothingWraps(e, Beacon(seqNo))
  {
    hide RecomputeFromBeacons, IntegrateEtx;
    var restart := !e.init && e.quality.etx >= ETX_INFINITE;
    var q := if restart then e.quality.(lastBeaconSeqNo := U8(seqNo - 1)) else e.quality;
    var missed := U8(seqNo - q.lastBeaconSeqNo - 1);
    if missed <= MAX_MISSED_BROADCASTS {
      RecomputedOk(Estimate(e.init || restart, q.(received := U8(q.received + 1), missed := U8(q.missed + missed))));
    } else {
      RecomputedOk(Estimate(true, RESET_QUALITY.(received := 1)));
    }
  }

  lemma PrrStaysUp(prr: byte, sample: byte)
    requires (prr == 0 || prr >= 4) && sample >= 23
    ensures IntegratePrr(prr, sample) >= 4
  {
  }

  lemma {:induction false} RecomputedOk(e: Estimate)
    requires EtxOk(e.quality.etx) && (e.quality.inPrr == 0 || e.quality.inPrr >= 4)
    requires e.quality.etx == ETX_INFINITE ==> e.init
    requires 1 <= e.quality.received <= 2 && e.quality.missed <= 10
    requires e.quality.unacked <= MAX_UNACKED_UNICASTS && e.quality.acked <= MAX_PENDING_ACKS
    ensures EstimateOk(RecomputeFromBeacons(e))
  {
    hide IntegrateEtx, IntegratePrr, PrrFromCounts, PrrToEtx;
    var q := e.quality;
    if q.received + q.missed >= MIN_BROADCASTS {
      PrrSampleBounds(q.received, q.missed);
      assert EtxToPrr(INITIAL_ETX) == 127;
      var sample := PrrFromCounts(q.received, q.received + q.missed);
      var prr := IntegratePrr(if e.init then 127 else q.inPrr, sample);
      PrrStaysUp(if e.init then 127 else q.inPrr, sample);
      PrrToEtxBounds(prr);
      EtxIntegratedBetween(if e.init then INITIAL_ETX else q.etx, PrrToEtx(prr));
    }
  }

  /** The sample from unicasts of which at most thirty were not acked. */
  lemma EtxSampleBounds(acked: byte, unacked: byte)
    requires unacked <= MAX_UNACKED_UNICASTS && 0 < acked + unacked <= 0xff
    ensures ETX_ONE <= UnicastSample(acked, acked + unacked) <= 496
  {
    hide U16;
    var total := acked + unacked;
    U16Small((total + 1) * ETX_ONE);
    U16Small(total * ETX_ONE);
    if acked > 0 {
      DivBounds(total * ETX_ONE, acked, ETX_ONE, 496);
    }
  }

  lemma U16Small(x: nat)
    requires x < 0x1_0000
    ensures U16(x) == x
  {
  }

  lemma {:induction false} RecomputedFromUnicastsOk(e: Estimate)
    requires EtxOk(e.quality.etx) && (e.quality.inPrr == 0 || e.quality.inPrr >= 4)
    requires e.quality.missed == 0 && e.quality.received <= 1 && e.quality.unacked <= MAX_UNACKED_UNICASTS
    requires e.quality.acked + e.quality.unacked <= 0xff && (e.init ==> e.quality.acked <= MAX_PENDING_ACKS)
    ensures EstimateOk(RecomputeFromUnicasts(e))
  {
    hide IntegrateEtx, UnicastSample;
    var q := e.quality;
    var total := q.acked + q.unacked;
    if total >= MIN_UNICASTS && !e.init {
      EtxSampleBounds(q.acked, q.unacked);
      EtxIntegratedBetween(if q.etx == ETX_INFINITE then INITIAL_ETX else q.etx, UnicastSample(q.acked, total));
    }
  }

  lemma {:induction false} UnicastKeepsOk(e: Estimate, acked: bool)
    requires EstimateOk(e) && Allowed(e, Unicast(acked))
    ensures EstimateOk(AfterUnicast(e, acked)) && NothingWraps(e, Unicast(acked))
  {
    hide RecomputeFromUnicasts;
    var q := e.quality;
    if acked {
      RecomputedFromUnicastsOk(e.(quality := q.(acked := U8(q.acked + 1))));
    } else if q.unacked + 1 <= MAX_UNACKED_UNICASTS {
      RecomputedFromUnicastsOk(e.(quality := q.(unacked := U8(q.unacked + 1))));
    }
  }

  ghost function RunReports(e: Estimate, reports: seq<Report>): Estimate
    decreases |reports|
  {
    if |reports| == 0 then e else RunReports(After(e, reports[0]), reports[1..])
  }

  ghost predicate AcksFit(e: Estimate, reports: seq<Report>, bound: nat)
    decreases |reports|
  {
    |reports| > 0 ==> AckFits(e, reports[0], bound) && AcksFit(After(e, reports[0]), reports[1..], bound)
  }

  ghost predicate AllAllowed(e: Estimate, reports: seq<Report>) {
    AcksFit(e, reports, MAX_PENDING_ACKS)
  }

  ghost predicate NothingEverWraps(e: Estimate, reports: seq<Report>)
    decreases |reports|
  {
    |reports| > 0 ==> NothingWraps(e, reports[0]) && NothingEverWraps(After(e, reports[0]), reports[1..])
  }

  /** Over every run of allowed reports from an estimate that is in bounds, such as that of a
      new link: the ETX stays infinite or between 1 and 63.75 transmissions, and no counter wraps. */
  lemma {:induction false} QualityStaysInBounds(e: Estimate, reports: seq<Report>)
    requires EstimateOk(e) && AllAllowed(e, reports)
    ensures EstimateOk(RunReports(e, reports)) && NothingEverWraps(e, reports)
    decreases |reports|
  {
    if |reports| > 0 {
      match reports[0] {
        case Beacon(seqNo) => BeaconKeepsOk(e, seqNo);
        case Unicast(acked) => UnicastKeepsOk(e, acked);
      }
      QualityStaysInBounds(After(e, reports[0]), reports[1..]);
    }
  }

  const NEW_LINK: Estimate := Estimate(false, RESET_QUALITY)

  lemma NewLinkIsOk()
    ensures EstimateOk(NEW_LINK)
  {
  }

  lemma {:induction false} SmallerBoundFits(e: Estimate, reports: seq<Report>, n: nat, m: nat)
    requires n <= m && AcksFit(e, reports, n)
    ensures AcksFit(e, reports, m)
    decreases |reports|
  {
    hide After;
    if |reports| > 0 {
      SmallerBoundFits(After(e, reports[0]), reports[1..], n, m);
    }
  }

  /** Of a new link, what is known after its first beacon, with no ack yet. */
  ghost function Initial(acked: byte, unacked: byte): Estimate {
    Estimate(true, RESET_QUALITY.(lastBeaconSeqNo := 7, received := 1, acked := acked, unacked := unacked))
  }

  lemma FirstBeacon()
    ensures After(NEW_LINK, Beacon(7)) == Initial(0, 0)
  {
    hide IntegrateEtx, IntegratePrr, PrrFromCounts, PrrToEtx, EtxToPrr;
  }

  lemma InitialUnicast(acked: byte, unacked: byte, ack: bool)
    requires acked < 0xff && unacked < MAX_UNACKED_UNICASTS + if ack then 1 else 0
    ensures After(Initial(acked, unacked), Unicast(ack))
            == if ack then Initial(acked + 1, unacked) else Initial(acked, unacked + 1)
  {
  }

  function Repeat(r: Report, n: nat): seq<Report> {
    if n == 0 then [] else [r] + Repeat(r, n - 1)
  }

  /** n unicasts without an ack, in the initial phase. */
  lemma {:induction false} UnackedPileUp(unacked: byte, n: nat, rest: seq<Report>, bound: nat)
    requires unacked + n <= MAX_UNACKED_UNICASTS
    ensures var reports := Repeat(Unicast(false), n) + rest;
            && (AcksFit(Initial(0, unacked), reports, bound) <==> AcksFit(Initial(0, unacked + n), rest, bound))
            && (NothingEverWraps(Initial(0, unacked), reports) ==> NothingEverWraps(Initial(0, unacked + n), rest))
    decreases n
  {
    hide After, Initial, NothingWraps;
    var reports := Repeat(Unicast(false), n) + rest;
    if n == 0 {
      assert reports == rest;
    } else {
      InitialUnicast(0, unacked, false);
      UnackedPileUp(unacked + 1, n - 1, rest, bound);
      assert reports[0] == Unicast(false) && reports[1..] == Repeat(Unicast(false), n - 1) + rest;
    }
  }

  /** n acked unicasts, in the initial phase. */
  lemma {:induction false} AcksPileUp(acked: byte, unacked: byte, n: nat, rest: seq<Report>, bound: nat)
    requires acked + n <= 0xff && unacked <= MAX_UNACKED_UNICASTS && (n > 0 ==> acked + n <= bound)
    ensures var reports := Repeat(Unicast(true), n) + rest;
            && (AcksFit(Initial(acked, unacked), reports, bound) <==> AcksFit(Initial(acked + n, unacked), rest, bound))
            && (NothingEverWraps(Initial(acked, unacked), reports) ==>
                      NothingEverWraps(Initial(acked + n, unacked), rest))
    decreases n
  {
    hide After;
    var reports := Repeat(Unicast(true), n) + rest;
    if n == 0 {
      assert reports == rest;
    } else {
      InitialUnicast(acked, unacked, true);
      AcksPileUp(acked + 1, unacked, n - 1, rest, bound);
      assert reports[0] == Unicast(true) && reports[1..] == Repeat(Unicast(true), n - 1) + rest;
    }
  }

  /** With 225 acks and 30 unacked unicasts pending, the beacon that ends the initial phase and
      another ack make the 8-bit number of unicasts wrap to zero. */
  lemma ThenItWraps(bound: nat)
    ensures var rest := [Beacon(8), Unicast(true)];
            AcksFit(Initial(225, 30), rest, bound) && !NothingEverWraps(Initial(225, 30), rest)
  {
    hide IntegrateEtx, IntegratePrr, PrrFromCounts, PrrToEtx, EtxToPrr;
    var rest := [Beacon(8), Unicast(true)];
    var e := After(Initial(225, 30), rest[0]);
    assert !e.init && e.quality.acked == 225 && e.quality.unacked == 30;
    assert rest[1..][0] == Unicast(true) && rest[1..][1..] == [];
    assert !NothingWraps(e, rest[1..][0]);
  }

  /** A run from a new link that makes no more than 225 acks pending. */
  ghost function WrappingRun(): seq<Report> {
    [Beacon(7)] + (Repeat(Unicast(false), 30) + (Repeat(Unicast(true), 225) + [Beacon(8), Unicast(true)]))
  }

  lemma WrappingRunWraps(bound: nat)
    requires bound > MAX_PENDING_ACKS
    ensures AcksFit(NEW_LINK, WrappingRun(), bound) && !NothingEverWraps(NEW_LINK, WrappingRun())
  {
    hide After, Repeat, Initial;
    var last := [Beacon(8), Unicast(true)];
    var acks := Repeat(Unicast(true), 225) + last;
    var rest := Repeat(Unicast(false), 30) + acks;
    FirstBeacon();
    UnackedPileUp(0, 30, acks, bound);
    AcksPileUp(0, 30, 225, last, bound);
    ThenItWraps(bound);
    assert WrappingRun()[0] == Beacon(7) && WrappingRun()[1..] == rest;
  }

  /** Over every run from a new link in which at most n acks are pending while it has no estimate,
      no counter wraps: exactly for n up to 224. */
  lemma PendingAckBoundIsTight(n: nat)
    ensures (forall reports :: AcksFit(NEW_LINK, reports, n) ==> NothingEverWraps(NEW_LINK, reports))
            <==> n <= MAX_PENDING_ACKS
  {
    if n <= MAX_PENDING_ACKS {
      forall reports | AcksFit(NEW_LINK, reports, n)
        ensures NothingEverWraps(NEW_LINK, reports)
      {
        SmallerBoundFits(NEW_LINK, reports, n, MAX_PENDING_ACKS);
        NewLinkIsOk();
        QualityStaysInBounds(NEW_LINK, reports);
      }
    } else {
      WrappingRunWraps(n);
    }
  }

  // ---------------------------------------------------------------------------
  // What a report does, in numbers
  // ---------------------------------------------------------------------------

  /** The beacons received of all, in 255ths. */
  function BeaconRate(received: nat, total: nat): nat
    requires total > 0
  {
    255 * received / total
  }

  /** The transmissions that a rate in 255ths takes, in 16ths. */
  function RateInverse(prr: nat): nat
    requires prr > 0
  {
    255 * 16 / prr
  }

  /** The unicasts sent for each ack, in 16ths, or one more than were sent when there was none. */
  function UnicastsPerAck(acked: nat, unacked: nat): nat {
    if acked == 0 then 16 * (unacked + 1) else 16 * (acked + unacked) / acked
  }

  /** The beacons missed, by the gap in the 8-bit sequence numbers; of a link that was lost (an infinite
      ETX, outside the initial phase) none. */
  function BeaconsMissed(e: Estimate, seqNo: byte): nat {
    if Lost(e) then 0 else (seqNo - e.quality.lastBeaconSeqNo + 255) % 256
  }

  predicate Lost(e: Estimate) {
    !e.init && e.quality.etx == 0xffff
  }

  /** A beacon after more than ten missed ones starts the link anew. */
  lemma BeaconAfterGap(e: Estimate, seqNo: byte)
    requires BeaconsMissed(e, seqNo) > 10
    ensures AfterBeacon(e, seqNo) == Estimate(true, Quality(0xffff, seqNo, 1, 0, 0, 0, 0))
  {
    hide U8, IntegrateEtx, IntegratePrr, PrrFromCounts, PrrToEtx, EtxToPrr, BeaconsMissed;
    BeaconGap(e, seqNo);
    assert !Lost(e) by {
      OnlyLostSkips(e, seqNo);
    }
    U8Counts(1, 0);
  }

  lemma OnlyLostSkips(e: Estimate, seqNo: byte)
    ensures Lost(e) ==> BeaconsMissed(e, seqNo) == 0
  {
  }

  lemma U8Counts(a: byte, b: byte)
    requires a + b <= 0xff
    ensures U8(a + b) == a + b
  {
  }

  /** Any other first beacon, none received before or missed, is counted. */
  lemma BeaconCounted(e: Estimate, seqNo: byte)
    requires BeaconsMissed(e, seqNo) == 0 && e.quality.received == e.quality.missed == 0
    ensures AfterBeacon(e, seqNo)
            == Estimate(e.init || Lost(e), e.quality.(lastBeaconSeqNo := seqNo, received := 1))
  {
    hide IntegrateEtx, IntegratePrr, PrrFromCounts, PrrToEtx, EtxToPrr;
    BeaconGap(e, seqNo);
  }

  /** The gap, as it is computed once a lost link has taken its last sequence number from the beacon. */
  lemma BeaconGap(e: Estimate, seqNo: byte)
    ensures U8(seqNo - (if Lost(e) then U8(seqNo - 1) else e.quality.lastBeaconSeqNo) - 1) == BeaconsMissed(e, seqNo)
  {
  }

  /** From two beacons on, received or missed, there is an estimate: the rate moves by 3/16 towards the
      fraction received, the ETX by 1/8 towards the inverse of the rate, and the counters start again.
      The first estimate starts from two transmissions, a rate of 127. */
  lemma {:induction false} BeaconEstimated(e: Estimate, seqNo: byte)
    requires EstimateOk(e) && BeaconsMissed(e, seqNo) <= 10 && e.quality.received + BeaconsMissed(e, seqNo) >= 1
    ensures var (q, r) := (e.quality, AfterBeacon(e, seqNo));
            var (etx, prr) := if e.init || Lost(e) then (32, 127) else (q.etx as int, q.inPrr as int);
            && r == Estimate(false, Quality(r.quality.etx, seqNo, 0, 0, q.acked, q.unacked, r.quality.inPrr))
            && PrrMoves(prr, BeaconRate(q.received + 1, q.received + 1 + BeaconsMissed(e, seqNo)), r.quality.inPrr)
            && r.quality.inPrr > 0 && EtxMoves(etx, RateInverse(r.quality.inPrr), r.quality.etx)
  {
    hide IntegrateEtx, IntegratePrr, PrrFromCounts, PrrToEtx, EtxToPrr, EtxMoves, PrrMoves, BeaconRate, RateInverse;
    hide BeaconsMissed, RecomputeFromBeacons;
    var q, missed := e.quality, BeaconsMissed(e, seqNo);
    BeaconGap(e, seqNo);
    var counted := Estimate(e.init || Lost(e), q.(received := q.received + 1, missed := missed,
                            lastBeaconSeqNo := if Lost(e) then U8(seqNo - 1) else q.lastBeaconSeqNo));
    EstimateFromBeacons(counted);
    assert AfterBeacon(e, seqNo).quality == RecomputeFromBeacons(counted).quality.(lastBeaconSeqNo := seqNo);
  }

  lemma {:induction false} EstimateFromBeacons(e: Estimate)
    requires 1 <= e.quality.received <= 2 && e.quality.missed <= 10 && e.quality.received + e.quality.missed >= 2
    requires e.quality.inPrr == 0 || e.quality.inPrr >= 4
    ensures var (q, r) := (e.quality, RecomputeFromBeacons(e));
            var (etx, prr) := if e.init then (32, 127) else (q.etx as int, q.inPrr as int);
            && r == Estimate(false, q.(etx := r.quality.etx, inPrr := r.quality.inPrr, received := 0, missed := 0))
            && PrrMoves(prr, BeaconRate(q.received, q.received + q.missed), r.quality.inPrr)
            && r.quality.inPrr > 0 && EtxMoves(etx, RateInverse(r.quality.inPrr), r.quality.etx)
  {
    hide IntegrateEtx, IntegratePrr, PrrFromCounts, PrrToEtx, EtxToPrr, EtxMoves, PrrMoves, BeaconRate, RateInverse;
    var q := e.quality;
    FirstRate();
    PrrSampleBounds(q.received, q.missed);
    PrrSampleIs(q.received, q.received + q.missed);
    var prr := if e.init then 127 else q.inPrr;
    PrrStaysUp(prr, PrrFromCounts(q.received, q.received + q.missed));
    PrrToEtxIs(IntegratePrr(prr, PrrFromCounts(q.received, q.received + q.missed)));
  }

  lemma FirstRate()
    ensures EtxToPrr(INITIAL_ETX) == 127
  {
  }

  lemma PrrSampleIs(received: byte, total: byte)
    requires 0 < received <= total
    ensures PrrFromCounts(received, total) == BeaconRate(received, total)
  {
    DivBounds(255 * received, total, 0, 255);
  }

  lemma PrrToEtxIs(prr: byte)
    requires prr > 0
    ensures PrrToEtx(prr) == RateInverse(prr)
  {
  }

  /** The 31st unicast without an ack makes a link lost. */
  lemma UnicastLoses(e: Estimate)
    requires e.quality.unacked == 30
    ensures AfterUnicast(e, false) == e.(quality := e.quality.(etx := 0xffff, acked := 0, unacked := 0))
  {
  }

  /** Any other unicast is counted; outside the initial phase, the eighth of them since the last estimate
      and any that are counted on make the ETX move by 1/8 towards the unicasts per ack.
      The counters start again unless there was no ack. */
  lemma {:induction false} UnicastCounts(e: Estimate, acked: bool)
    requires EstimateOk(e) && Allowed(e, Unicast(acked)) && (acked || e.quality.unacked < 30)
    ensures var (q, r) := (e.quality, AfterUnicast(e, acked));
            var (a, u) := if acked then (q.acked + 1, q.unacked as int) else (q.acked as int, q.unacked + 1);
            if e.init || a + u < 8 then r == e.(quality := q.(acked := a, unacked := u))
            else
              && r == e.(quality := q.(etx := r.quality.etx, acked := 0, unacked := if a == 0 then u else 0))
              && EtxMoves(if q.etx == 0xffff then 32 else q.etx, UnicastsPerAck(a, u), r.quality.etx)
  {
    hide U8, RecomputeFromUnicasts, EtxMoves, UnicastsPerAck;
    var q := e.quality;
    if acked {
      U8Counts(q.acked, 1);
      EstimateFromUnicasts(e.(quality := q.(acked := q.acked + 1)));
    } else {
      U8Counts(q.unacked, 1);
      EstimateFromUnicasts(e.(quality := q.(unacked := q.unacked + 1)));
    }
  }

  lemma {:induction false} EstimateFromUnicasts(e: Estimate)
    requires e.quality.acked + e.quality.unacked <= 0xff
    ensures var (q, r) := (e.quality, RecomputeFromUnicasts(e));
            if e.init || q.acked + q.unacked < 8 then r == e
            else
              && r == e.(quality := q.(etx := r.quality.etx, acked := 0, unacked := if q.acked == 0 then q.unacked else 0))
              && EtxMoves(if q.etx == 0xffff then 32 else q.etx, UnicastsPerAck(q.acked, q.unacked), r.quality.etx)
  {
    hide U8, IntegrateEtx, UnicastSample, EtxMoves, UnicastsPerAck;
    U8Counts(e.quality.acked, e.quality.unacked);
    UnicastSampleIs(e.quality.acked, e.quality.unacked);
  }

  lemma UnicastSampleIs(acked: byte, unacked: byte)
    requires acked + unacked <= 0xff
    ensures UnicastSample(acked, acked + unacked) == UnicastsPerAck(acked, unacked)
  {
    hide U16;
    U16Small((acked + unacked + 1) * ETX_ONE);
    U16Small((acked + unacked) * ETX_ONE);
  }

  // ---------------------------------------------------------------------------
  // Where equal samples lead
  // ---------------------------------------------------------------------------

  ghost function Power(b: nat, n: nat): nat {
    if n == 0 then 1 else b * Power(b, n - 1)
  }

  ghost function EtxAfter(etx: uint16, sample: uint16, n: nat): uint16 {
    if n == 0 then etx else IntegrateEtx(EtxAfter(etx, sample, n - 1), sample)
  }

  ghost function PrrAfter(prr: byte, sample: byte, n: nat): byte {
    if n == 0 then prr else IntegratePrr(PrrAfter(prr, sample, n - 1), sample)
  }

  /** What is left of a distance d after n steps that each leave num / den of it, up to slack: a geometric
      series, without fractions. */
  ghost predicate Shrunk(num: nat, den: nat, slack: nat, n: nat, d: int, rest: int) {
    Power(num, n) * d <= Power(den, n) * rest <= Power(num, n) * d + slack * (Power(den, n) - Power(num, n))
  }

  /** One more step; slack * (den - num) is how much rounding adds to a step. */
  lemma {:induction false} ShrunkStep(num: nat, den: nat, slack: nat, n: nat, d: int, rest: int, next: int)
    requires Shrunk(num, den, slack, n, d, rest)
    requires num * rest <= den * next <= num * rest + slack * (den - num)
    ensures Shrunk(num, den, slack, n + 1, d, next)
  {
    var (pn, pd) := (Power(num, n), Power(den, n));
    MulMono(pd, num * rest, den * next);
    MulMono(pd, den * next, num * rest + slack * (den - num));
    MulMono(num, pn * d, pd * rest);
    MulMono(num, pd * rest, pn * d + slack * (pd - pn));
    ShrunkAlgebra(num, den, slack, pn, pd, d, rest, next);
  }

  lemma MulMono(k: nat, a: int, b: int)
    requires a <= b
    ensures k * a <= k * b
  {
  }

  lemma {:induction false} ShrunkAlgebra(num: nat, den: nat, slack: nat, pn: nat, pd: nat, d: int, rest: int, next: int)
    requires pd * (num * rest) <= pd * (den * next) <= pd * (num * rest + slack * (den - num))
    requires num * (pn * d) <= num * (pd * rest) <= num * (pn * d + slack * (pd - pn))
    ensures (num * pn) * d <= (den * pd) * next <= (num * pn) * d + slack * (den * pd - num * pn)
  {
    Commute(pd, den, next);
    Commute(pd, num, rest);
    Commute(num, pn, d);
    Distribute(pd, num * rest, slack, den, num);
    Distribute(num, pn * d, slack, pd, pn);
    Distribute(1, (num * pn) * d, slack, den * pd, num * pn);
  }

  lemma Commute(a: int, b: int, c: int)
    ensures a * (b * c) == (b * a) * c == b * (a * c)
  {
  }

  lemma Distribute(k: int, x: int, slack: int, a: int, b: int)
    ensures k * (x + slack * (a - b)) == k * x + slack * (a * k) - slack * (b * k)
  {
    assert slack * (a - b) == slack * a - slack * b;
    Commute(k, slack, a);
    Commute(k, slack, b);
  }

  lemma ShrunkStart(num: nat, den: nat, slack: nat, d: int)
    ensures Shrunk(num, den, slack, 0, d, d)
  {
  }

  lemma EtxLeaves(etx: int, sample: int, r: int)
    requires EtxMoves(etx, sample, r)
    ensures 7 * (sample - etx) <= 8 * (sample - r) <= 7 * (sample - etx) + 7 * (8 - 7)
  {
  }

  lemma PrrLeaves(prr: int, sample: int, r: int)
    requires PrrMoves(prr, sample, r)
    ensures 13 * (sample - prr) <= 16 * (sample - r) <= 13 * (sample - prr) + 5 * (16 - 13)
  {
  }

  /** After n equal samples the distance of an ETX from them is (7/8)^n of what it was, or up to
      seven 16ths more: 7^n d <= 8^n d' <= 7^n d + 7 (8^n - 7^n). */
  lemma {:induction false} EtxConverges(etx: uint16, sample: uint16, n: nat)
    ensures Shrunk(7, 8, 7, n, sample - etx, sample - EtxAfter(etx, sample, n))
  {
    hide IntegrateEtx, Shrunk, EtxMoves;
    if n == 0 {
      ShrunkStart(7, 8, 7, sample - etx);
    } else {
      EtxConverges(etx, sample, n - 1);
      var was := EtxAfter(etx, sample, n - 1);
      EtxLeaves(was, sample, IntegrateEtx(was, sample));
      ShrunkStep(7, 8, 7, n - 1, sample - etx, sample - was, sample - IntegrateEtx(was, sample));
    }
  }

  /** Likewise of a reception rate, with 13/16 and up to five 255ths. */
  lemma {:induction false} PrrConverges(prr: byte, sample: byte, n: nat)
    ensures Shrunk(13, 16, 5, n, sample - prr, sample - PrrAfter(prr, sample, n))
  {
    hide IntegratePrr, Shrunk, PrrMoves;
    if n == 0 {
      ShrunkStart(13, 16, 5, sample - prr);
    } else {
      PrrConverges(prr, sample, n - 1);
      var was := PrrAfter(prr, sample, n - 1);
      PrrLeaves(was, sample, IntegratePrr(was, sample));
      ShrunkStep(13, 16, 5, n - 1, sample - prr, sample - was, sample - IntegratePrr(was, sample));
    }
  }

  lemma {:induction false} RepeatSplit(r: Report, m: nat, n: nat)
    ensures Repeat(r, m + n) == Repeat(r, m) + Repeat(r, n)
  {
    if m > 0 {
      RepeatSplit(r, m - 1, n);
      assert Repeat(r, m + n) == [r] + Repeat(r, m - 1 + n);
    }
  }

  /** k acks, not yet eight with those before. */
  lemma {:induction false} AcksPending(e: Estimate, k: nat, rest: seq<Report>)
    requires EstimateOk(e) && !e.init && e.quality.unacked == 0 && e.quality.acked + k < 8
    ensures var e' := e.(quality := e.quality.(acked := e.quality.acked + k));
            RunReports(e, Repeat(Unicast(true), k) + rest) == RunReports(e', rest)
    decreases k
  {
    hide AfterUnicast, EtxMoves, UnicastsPerAck;
    var reports := Repeat(Unicast(true), k) + rest;
    if k == 0 {
      assert reports == rest;
    } else {
      UnicastCounts(e, true);
      AcksPending(After(e, Unicast(true)), k - 1, rest);
      assert reports[0] == Unicast(true) && reports[1..] == Repeat(Unicast(true), k - 1) + rest;
    }
  }

  /** Eight acks make one sample of one transmission, which is 16. */
  lemma {:induction false} EightAcks(e: Estimate, rest: seq<Report>)
    requires EstimateOk(e) && !e.init && e.quality.etx != 0xffff && e.quality.acked == e.quality.unacked == 0
    ensures var e' := e.(quality := e.quality.(etx := EtxAfter(e.quality.etx, 16, 1)));
            RunReports(e, Repeat(Unicast(true), 8) + rest) == RunReports(e', rest)
  {
    hide AfterUnicast, Repeat, IntegrateEtx;
    RepeatSplit(Unicast(true), 7, 1);
    OneReport(Unicast(true));
    var last := [Unicast(true)] + rest;
    assert Repeat(Unicast(true), 8) + rest == Repeat(Unicast(true), 7) + last;
    AcksPending(e, 7, last);
    var e7 := e.(quality := e.quality.(acked := 7));
    UnicastCounts(e7, true);
    assert last[1..] == rest && last[0] == Unicast(true);
    assert EtxAfter(e.quality.etx, 16, 1) == IntegrateEtx(EtxAfter(e.quality.etx, 16, 0), 16);
  }

  lemma OneReport(r: Report)
    ensures Repeat(r, 1) == [r]
  {
  }

  /** On a link with an estimate, 8 n acked unicasts take its ETX to within (7/8)^n of its distance from one
      transmission, or up to seven 16ths further, and change nothing else. */
  lemma {:induction false} AckedRunConverges(e: Estimate, n: nat)
    requires EstimateOk(e) && !e.init && e.quality.etx != 0xffff && e.quality.acked == e.quality.unacked == 0
    ensures var r := RunReports(e, Repeat(Unicast(true), 8 * n));
            && r == e.(quality := e.quality.(etx := r.quality.etx))
            && Shrunk(7, 8, 7, n, 16 - e.quality.etx, 16 - r.quality.etx)
  {
    hide Shrunk;
    EightAcksEach(e, n);
    EtxConverges(e.quality.etx, 16, n);
  }

  lemma {:induction false} EightAcksEach(e: Estimate, n: nat)
    requires EstimateOk(e) && !e.init && e.quality.etx != 0xffff && e.quality.acked == e.quality.unacked == 0
    ensures RunReports(e, Repeat(Unicast(true), 8 * n))
            == e.(quality := e.quality.(etx := EtxAfter(e.quality.etx, 16, n)))
    decreases n
  {
    hide After, IntegrateEtx, Repeat;
    if n == 0 {
      assert Repeat(Unicast(true), 8 * n) == [] by { NoReports(Unicast(true)); }
    } else {
      var etx := EtxAfter(e.quality.etx, 16, 1);
      RepeatSplit(Unicast(true), 8, 8 * (n - 1));
      EightAcks(e, Repeat(Unicast(true), 8 * (n - 1)));
      assert etx == IntegrateEtx(EtxAfter(e.quality.etx, 16, 0), 16);
      EightAcksEach(e.(quality := e.quality.(etx := etx)), n - 1);
      EtxAfterFirst(e.quality.etx, 16, n - 1);
    }
  }

  lemma NoReports(r: Report)
    ensures Repeat(r, 0) == []
  {
  }

  lemma {:induction false} EtxAfterFirst(etx: uint16, sample: uint16, n: nat)
    ensures EtxAfter(EtxAfter(etx, sample, 1), sample, n) == EtxAfter(etx, sample, n + 1)
  {
    hide IntegrateEtx;
    if n > 0 {
      EtxAfterFirst(etx, sample, n - 1);
    }
  }

  /** A link is lost by unicasts exactly when 31 in a row are not acked. */
  lemma {:induction false} UnackedRunLoses(e: Estimate, n: nat)
    requires EstimateOk(e) && e.quality.etx != 0xffff && e.quality.acked == 0 && e.quality.unacked + n <= 31
    ensures var r := RunReports(e, Repeat(Unicast(false), n));
            && (r.quality.etx == 0xffff <==> e.quality.unacked + n == 31)
            && r.init == e.init && r.quality.unacked == (e.quality.unacked + n) % 31
    decreases n
  {
    hide AfterUnicast;
    if n > 0 {
      if e.quality.unacked == 30 {
        UnicastLoses(e);
        assert Repeat(Unicast(false), n)[1..] == [];
      } else {
        UnicastKeepsOk(e, false);
        UnicastCounts(e, false);
        UnackedRunLoses(After(e, Unicast(false)), n - 1);
        assert Repeat(Unicast(false), n)[1..] == Repeat(Unicast(false), n - 1);
      }
    }
  }

  /** On a link with an estimate, 2 n beacons of which none was missed take its reception rate to within
      (13/16)^n of its distance from 255, or up to five further. */
  lemma {:induction false} BeaconRunConverges(e: Estimate, n: nat)
    requires EstimateOk(e) && !e.init && e.quality.etx != 0xffff && e.quality.received == 0
    ensures Shrunk(13, 16, 5, n, 255 - e.quality.inPrr, 255 - RunReports(e, InSequence(e, 2 * n)).quality.inPrr)
    decreases n
  {
    hide Shrunk;
    TwoBeaconsEach(e, n);
    PrrConverges(e.quality.inPrr, 255, n);
  }

  /** The next n beacons after the last one. */
  ghost function InSequence(e: Estimate, n: nat): seq<Report> {
    BeaconsFrom(e.quality.lastBeaconSeqNo, n)
  }

  ghost function BeaconsFrom(last: byte, n: nat): (r: seq<Report>)
    ensures |r| == n
    decreases n
  {
    if n == 0 then [] else [Beacon((last + 1) % 256)] + BeaconsFrom((last + 1) % 256, n - 1)
  }

  lemma {:induction false} TwoBeaconsEach(e: Estimate, n: nat)
    requires EstimateOk(e) && !e.init && e.quality.etx != 0xffff && e.quality.received == 0
    ensures RunReports(e, InSequence(e, 2 * n)).quality.inPrr == PrrAfter(e.quality.inPrr, 255, n)
    decreases n
  {
    hide After, IntegratePrr;
    if n > 0 {
      var e2 := TwoBeacons(e, InSequence(e, 2 * n));
      TwoBeaconsEach(e2, n - 1);
      assert PrrAfter(e.quality.inPrr, 255, 1) == IntegratePrr(PrrAfter(e.quality.inPrr, 255, 0), 255);
      PrrAfterFirst(e.quality.inPrr, 255, n - 1);
    }
  }

  lemma {:induction false} PrrAfterFirst(prr: byte, sample: byte, n: nat)
    ensures PrrAfter(PrrAfter(prr, sample, 1), sample, n) == PrrAfter(prr, sample, n + 1)
  {
    hide IntegratePrr;
    if n > 0 {
      PrrAfterFirst(prr, sample, n - 1);
    }
  }

  /** The first two of a sequence of beacons make one sample of 255. */
  lemma {:induction false} TwoBeacons(e: Estimate, beacons: seq<Report>) returns (e2: Estimate)
    requires EstimateOk(e) && !e.init && e.quality.etx != 0xffff && e.quality.received == 0
    requires |beacons| >= 2 && beacons == InSequence(e, |beacons|)
    ensures EstimateOk(e2) && !e2.init && e2.quality.etx != 0xffff && e2.quality.received == 0
    ensures e2.quality.inPrr == IntegratePrr(e.quality.inPrr, 255)
    ensures RunReports(e, beacons) == RunReports(e2, InSequence(e2, |beacons| - 2))
  {
    hide AfterBeacon, IntegratePrr, EtxMoves;
    var s1, s2 := (e.quality.lastBeaconSeqNo + 1) % 256, (e.quality.lastBeaconSeqNo + 2) % 256;
    var e1 := After(e, Beacon(s1));
    BeaconCounted(e, s1);
    BeaconKeepsOk(e, s1);
    e2 := After(e1, Beacon(s2));
    BeaconKeepsOk(e1, s2);
    assert BeaconsMissed(e1, s2) == 0;
    assert BeaconRate(2, 2) == 255;
    BeaconEstimated(e1, s2);
    PrrStepUnique(e.quality.inPrr, 255, e2.quality.inPrr, IntegratePrr(e.quality.inPrr, 255));
    EstimateStaysFinite(e1.quality.etx, e2.quality.inPrr, e2.quality.etx);
    TwoFirst(e.quality.lastBeaconSeqNo, |beacons| - 2);
    assert beacons[1..][1..] == BeaconsFrom(s2, |beacons| - 2);
    assert beacons[0] == Beacon(s1) && beacons[1..][0] == Beacon(s2);
    assert RunReports(e1, beacons[1..]) == RunReports(e2, beacons[1..][1..]);
  }

  lemma TwoFirst(last: byte, n: nat)
    ensures BeaconsFrom(last, n + 2)
            == [Beacon((last + 1) % 256), Beacon((last + 2) % 256)] + BeaconsFrom((last + 2) % 256, n)
  {
    assert ((last + 1) % 256 + 1) % 256 == (last + 2) % 256;
  }

  lemma PrrStepUnique(prr: int, sample: int, r: int, r': int)
    requires PrrMoves(prr, sample, r) && PrrMoves(prr, sample, r')
    ensures r == r'
  {
  }

  lemma EstimateStaysFinite(etx: uint16, prr: byte, r: uint16)
    requires etx <= 1020 && prr > 0 && EtxMoves(etx, RateInverse(prr), r)
    ensures r < 0xffff
  {
    DivBounds(255 * 16, prr, 0, 4080);
  }
}
