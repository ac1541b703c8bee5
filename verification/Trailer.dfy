/** Trailer records of received frames: their byte format, what they mean for
    the endpoints, and the parser that applies them in place. */
module Trailer {
  import opened Bytes
  import opened Credits

  const MANAGED_MAX: nat := 3
  const ENDPOINT_MAX: nat := 6

  const RECORD_CREDITS: uint8 := 1
  const RECORD_LOOKAHEAD: uint8 := 2
  const RECORD_LOOKAHEAD_BUNDLE: uint8 := 3

  /** A 32-bit lookahead as its four bytes in memory; all zero means none. */
  type LookAhead = b: seq<uint8> | |b| == 4 witness [0, 0, 0, 0]

  const NO_LOOKAHEAD: LookAhead := [0, 0, 0, 0]

  /** Util_GetEndpoint: the data endpoints share the last managed pool. */
  function PoolOf(id: nat): (p: nat)
    ensures p < MANAGED_MAX
  {
    if id >= MANAGED_MAX then MANAGED_MAX - 1 else id
  }

  datatype Record = Record(id: uint8, body: seq<uint8>)

  ghost predicate Encodable(rs: seq<Record>)
  {
    forall r :: r in rs ==> |r.body| < 0x100
  }

  function Encode(rs: seq<Record>): seq<uint8>
    requires Encodable(rs)
  {
    if rs == [] then []
    else
      assert rs[0] in rs;
      [rs[0].id, |rs[0].body|] + rs[0].body + Encode(rs[1..])
  }

  predicate StartsWithRecord(b: seq<uint8>)
  {
    |b| >= 2 && b[1] as int <= |b| - 2
  }

  function FirstRecord(b: seq<uint8>): Record
    requires StartsWithRecord(b)
  {
    Record(b[0], b[2..2 + b[1] as int])
  }

  function AfterRecord(b: seq<uint8>): seq<uint8>
    requires StartsWithRecord(b)
  {
    b[2 + b[1] as int..]
  }

  /** The complete records at the front of a byte string. */
  function Records(b: seq<uint8>): (rs: seq<Record>)
    ensures Encodable(rs)
    decreases |b|
  {
    if StartsWithRecord(b) then [FirstRecord(b)] + Records(AfterRecord(b)) else []
  }

  /** What follows them: nothing, or the stump of a record that is cut off. */
  function Leftover(b: seq<uint8>): seq<uint8>
    decreases |b|
  {
    if StartsWithRecord(b) then Leftover(AfterRecord(b)) else b
  }

  /** Every byte string splits into encoded records and a stump without one. */
  lemma {:induction false} RecordsThenLeftover(b: seq<uint8>)
    ensures b == Encode(Records(b)) + Leftover(b)
    ensures !StartsWithRecord(Leftover(b))
    decreases |b|
  {
    if StartsWithRecord(b) {
      var r, rest := FirstRecord(b), AfterRecord(b);
      RecordsThenLeftover(rest);
      EncodeCons(r, Records(rest));
      HeadAndTail(b);
      Regroup(b, [r.id, |r.body|] + r.body, Encode(Records(rest)), Leftover(rest));
    }
  }

  lemma Regroup(b: seq<uint8>, x: seq<uint8>, y: seq<uint8>, z: seq<uint8>)
    requires b == x + (y + z)
    ensures b == (x + y) + z
  {
  }

  lemma EncodeCons(r: Record, rs: seq<Record>)
    requires |r.body| < 0x100 && Encodable(rs)
    ensures Encodable([r] + rs)
    ensures Encode([r] + rs) == [r.id, |r.body|] + r.body + Encode(rs)
  {
    assert ([r] + rs)[1..] == rs;
  }

  lemma HeadAndTail(b: seq<uint8>)
    requires StartsWithRecord(b)
    ensures var r := FirstRecord(b); b == [r.id, |r.body|] + r.body + AfterRecord(b)
  {
  }

  lemma StartsWith(b: seq<uint8>, r: Record, rest: seq<uint8>)
    requires |r.body| < 0x100 && b == [r.id, |r.body|] + r.body + rest
    ensures StartsWithRecord(b) && FirstRecord(b) == r && AfterRecord(b) == rest
  {
  }

  /** Parsing undoes encoding, whatever stump follows. */
  lemma {:induction false} RecordsOfEncode(rs: seq<Record>, stump: seq<uint8>)
    requires Encodable(rs) && !StartsWithRecord(stump)
    ensures Records(Encode(rs) + stump) == rs && Leftover(Encode(rs) + stump) == stump
    decreases |rs|
  {
    if rs == [] {
      assert Encode(rs) + stump == stump;
    } else {
      var r := rs[0];
      assert r in rs;
      var b := Encode(rs) + stump;
      var rest := Encode(rs[1..]) + stump;
      assert b == [r.id, |r.body|] + r.body + rest;
      StartsWith(b, r, rest);
      RecordsOfEncode(rs[1..], stump);
      hide Encode;
      assert [r] + rs[1..] == rs;
    }
  }

  datatype CreditEntry = CreditEntry(endpoint: uint8, credits: uint8)

  /** The two-byte entries of a credit record; a trailing odd byte is ignored. */
  function Entries(body: seq<uint8>): (es: seq<CreditEntry>)
    ensures |es| == |body| / 2
    ensures forall i :: 0 <= i < |es| ==> es[i] == CreditEntry(body[2 * i], body[2 * i + 1])
  {
    seq(|body| / 2, i requires 0 <= i < |body| / 2 => CreditEntry(body[2 * i], body[2 * i + 1]))
  }

  /** The longest prefix of entries that name an existing endpoint. */
  function KnownPrefix(es: seq<CreditEntry>): (ks: seq<CreditEntry>)
    ensures ks <= es
  {
    if es == [] || es[0].endpoint >= ENDPOINT_MAX then [] else [es[0]] + KnownPrefix(es[1..])
  }

  function ApplyEntry(eps: seq<Endpoint>, e: CreditEntry): (r: seq<Endpoint>)
    requires |eps| == MANAGED_MAX
    ensures |r| == MANAGED_MAX
  {
    var p := PoolOf(e.endpoint);
    eps[p := Reported(eps[p], e.credits)]
  }

  function ApplyEntries(eps: seq<Endpoint>, es: seq<CreditEntry>): (r: seq<Endpoint>)
    requires |eps| == MANAGED_MAX
    ensures |r| == MANAGED_MAX
    decreases |es|
  {
    if es == [] then eps else ApplyEntries(ApplyEntry(eps, es[0]), es[1..])
  }

  /** How processing a trailer ends: normally, with the lookahead found, or in a
      driver assert, after which the driver never runs again. */
  datatype Outcome = Done(lookAhead: LookAhead) | Asserted

  predicate Guarded(r: Record)
  {
    r.id == RECORD_LOOKAHEAD && |r.body| >= 6 && r.body[0] as int == 0xFF - r.body[5] as int
  }

  predicate Acceptable(r: Record)
  {
    && r.id != RECORD_LOOKAHEAD_BUNDLE
    && (r.id == RECORD_LOOKAHEAD ==> |r.body| >= 6)
    && (r.id == RECORD_CREDITS ==> forall e :: e in Entries(r.body) ==> (e.endpoint as int) < ENDPOINT_MAX)
  }

  datatype Replayed = Replayed(eps: seq<Endpoint>, outcome: Outcome)

  /** What one record does. */
  function ReplayOne(r: Record, eps: seq<Endpoint>, la: LookAhead): (s: Replayed)
    requires |eps| == MANAGED_MAX
    ensures |s.eps| == MANAGED_MAX
  {
    if r.id == RECORD_CREDITS then
      var known := KnownPrefix(Entries(r.body));
      Replayed(ApplyEntries(eps, known), if |known| == |Entries(r.body)| then Done(la) else Asserted)
    else if r.id == RECORD_LOOKAHEAD then
      Replayed(eps, if |r.body| < 6 then Asserted else Done(if Guarded(r) then r.body[1..5] else la))
    else
      Replayed(eps, if r.id == RECORD_LOOKAHEAD_BUNDLE then Asserted else Done(la))
  }

  /** What a list of records does, in order, up to the first assert. */
  function Replay(rs: seq<Record>, eps: seq<Endpoint>, la: LookAhead): (s: Replayed)
    requires |eps| == MANAGED_MAX
    ensures |s.eps| == MANAGED_MAX
    decreases |rs|
  {
    if rs == [] then Replayed(eps, Done(la))
    else
      var s := ReplayOne(rs[0], eps, la);
      if s.outcome.Asserted? then s else Replay(rs[1..], s.eps, s.outcome.lookAhead)
  }

  /** What a trailer does: its records in order; a stump is a protocol error. */
  function Effect(b: seq<uint8>, eps: seq<Endpoint>, la: LookAhead): (s: Replayed)
    requires |eps| == MANAGED_MAX
    ensures |s.eps| == MANAGED_MAX
  {
    var s := Replay(Records(b), eps, la);
    if Leftover(b) == [] then s else Replayed(s.eps, Asserted)
  }

  /** All credit entries of a list of records, in order. */
  function Reports(rs: seq<Record>): seq<CreditEntry>
  {
    if rs == [] then []
    else (if rs[0].id == RECORD_CREDITS then Entries(rs[0].body) else []) + Reports(rs[1..])
  }

  /** The last guarded lookahead of a list of records. */
  function LastGuarded(rs: seq<Record>, la: LookAhead): LookAhead
  {
    if rs == [] then la
    else if Guarded(rs[|rs| - 1]) then rs[|rs| - 1].body[1..5]
    else LastGuarded(rs[..|rs| - 1], la)
  }

  lemma {:induction false} KnownPrefixWhole(es: seq<CreditEntry>)
    ensures |KnownPrefix(es)| == |es| <==> forall e :: e in es ==> (e.endpoint as int) < ENDPOINT_MAX
  {
    if es != [] {
      KnownPrefixWhole(es[1..]);
      assert es == [es[0]] + es[1..];
    }
  }

  lemma {:induction false} ApplyConcat(eps: seq<Endpoint>, xs: seq<CreditEntry>, ys: seq<CreditEntry>)
    requires |eps| == MANAGED_MAX
    ensures ApplyEntries(eps, xs + ys) == ApplyEntries(ApplyEntries(eps, xs), ys)
    decreases |xs|
  {
    if xs == [] {
      assert xs + ys == ys;
    } else {
      assert (xs + ys)[1..] == xs[1..] + ys;
      ApplyConcat(ApplyEntry(eps, xs[0]), xs[1..], ys);
    }
  }

  lemma {:induction false} LastGuardedFront(rs: seq<Record>, la: LookAhead)
    requires rs != []
    ensures LastGuarded(rs, la) == LastGuarded(rs[1..], if Guarded(rs[0]) then rs[0].body[1..5] else la)
    decreases |rs|
  {
    var n := |rs| - 1;
    if n > 0 {
      assert rs[1..][|rs[1..]| - 1] == rs[n];
      if !Guarded(rs[n]) {
        assert rs[..n][1..] == rs[1..][..n - 1];
        LastGuardedFront(rs[..n], la);
      }
    } else {
      assert rs[..0] == [] && rs[1..] == [];
    }
  }

  /** A lookahead report is its four bytes between two guards. It is taken exactly when
      the guards are complements of each other; bytes behind them do not matter. */
  lemma LookAheadIsTakenIffGuarded(pre: uint8, la: LookAhead, post: uint8, rest: seq<uint8>, eps: seq<Endpoint>, before: LookAhead)
    requires |eps| == MANAGED_MAX
    ensures ReplayOne(Record(RECORD_LOOKAHEAD, [pre] + la + [post] + rest), eps, before) ==
            Replayed(eps, Done(if pre as int + post as int == 0xFF then la else before))
  {
    var body := [pre] + la + [post] + rest;
    assert body[0] == pre && body[5] == post && body[1..5] == la;
  }

  /** From its bytes in a trailer: what the device put between the guards is found. */
  lemma LookAheadRoundTrip(pre: uint8, la: LookAhead, eps: seq<Endpoint>, before: LookAhead)
    requires |eps| == MANAGED_MAX
    ensures Effect([2, 6] + ([pre] + la + [0xFF - pre]), eps, before) == Replayed(eps, Done(la))
  {
    var body := [pre] + la + [0xFF - pre];
    var r := Record(RECORD_LOOKAHEAD, body);
    assert Encode([r]) == [r.id, |r.body|] + r.body + Encode([]);
    assert Encode([r]) + [] == [2, 6] + body;
    RecordsOfEncode([r], []);
    assert body + [] == body;
    LookAheadIsTakenIffGuarded(pre, la, 0xFF - pre, [], eps, before);
    hide ReplayOne;
    assert [r][1..] == [];
    assert Replay([], eps, la) == Replayed(eps, Done(la));
    assert Replay([r], eps, before) == Replayed(eps, Done(la));
  }

  /** Records that are all acceptable apply every credit entry in order and
      leave the last guarded lookahead; any other list ends in an assert. */
  lemma {:induction false} ReplayMeans(rs: seq<Record>, eps: seq<Endpoint>, la: LookAhead)
    requires |eps| == MANAGED_MAX
    ensures Replay(rs, eps, la).outcome.Done? <==> forall r :: r in rs ==> Acceptable(r)
    ensures Replay(rs, eps, la).outcome.Done? ==>
              Replay(rs, eps, la) == Replayed(ApplyEntries(eps, Reports(rs)), Done(LastGuarded(rs, la)))
    decreases |rs|
  {
    if rs != [] {
      var r := rs[0];
      assert rs == [r] + rs[1..];
      if r.id == RECORD_CREDITS {
        KnownPrefixWhole(Entries(r.body));
      }
      var s := ReplayOne(r, eps, la);
      assert s.outcome.Done? <==> Acceptable(r);
      if s.outcome.Done? {
        ReplayMeans(rs[1..], s.eps, s.outcome.lookAhead);
        LastGuardedFront(rs, la);
        var es := if r.id == RECORD_CREDITS then Entries(r.body) else [];
        if r.id == RECORD_CREDITS {
          assert KnownPrefix(es) == es;
        }
        assert s.eps == ApplyEntries(eps, es);
        ApplyConcat(eps, es, Reports(rs[1..]));
      }
    }
  }

  /** A trailer is processed without an assert exactly when its bytes are a
      concatenation of complete, acceptable records, and then its effect is the
      in-order fold of its credit entries and its last guarded lookahead. */
  lemma {:induction false} TrailerAcceptedIffRecords(b: seq<uint8>, eps: seq<Endpoint>, la: LookAhead)
    requires |eps| == MANAGED_MAX
    ensures Effect(b, eps, la).outcome.Done? <==>
            exists rs :: Encodable(rs) && b == Encode(rs) && forall r :: r in rs ==> Acceptable(r)
    ensures forall rs :: Encodable(rs) && b == Encode(rs) && (forall r :: r in rs ==> Acceptable(r)) ==>
                           Effect(b, eps, la) == Replayed(ApplyEntries(eps, Reports(rs)), Done(LastGuarded(rs, la)))
  {
    RecordsThenLeftover(b);
    ReplayMeans(Records(b), eps, la);
    if Effect(b, eps, la).outcome.Done? {
      assert b == Encode(Records(b));
    }
    forall rs | Encodable(rs) && b == Encode(rs) && forall r :: r in rs ==> Acceptable(r)
      ensures Effect(b, eps, la) == Replayed(ApplyEntries(eps, Reports(rs)), Done(LastGuarded(rs, la)))
    {
      assert Encode(rs) + [] == b;
      RecordsOfEncode(rs, []);
    }
  }

  /** The body of Htc_ProcessCreditRpt's loop: one entry, applied in place. */
  method ProcessCreditEntry(ep: array<Endpoint>, p: nat, n: uint8)
    requires ep.Length == MANAGED_MAX && p < MANAGED_MAX
    modifies ep
    ensures ep[..] == old(ep[..])[p := Reported(old(ep[p]), n)]
  {
    ep[p] := ep[p].(rptCreditCounter := Wrap8(ep[p].rptCreditCounter as int + n as int));
    var credits := n;
    if ep[p].intCredits != 0 {
      if ep[p].intCredits <= n {
        credits := n - ep[p].intCredits;
        ep[p] := ep[p].(intCredits := 0);
      } else {
        credits := 0;
        ep[p] := ep[p].(intCredits := ep[p].intCredits - n);
      }
    }
    ep[p] := ep[p].(credits := Wrap8(ep[p].credits as int + credits as int));
  }

  /** Htc_ProcessCreditRpt: applies the entries of one credit record in place,
      up to the first that names no endpoint. */
  method ProcessCreditRpt(ep: array<Endpoint>, rpt: seq<uint8>, numEntries: nat) returns (halted: bool)
    requires ep.Length == MANAGED_MAX && numEntries == |rpt| / 2
    modifies ep
    ensures ep[..] == ApplyEntries(old(ep[..]), KnownPrefix(Entries(rpt)))
    ensures halted <==> |KnownPrefix(Entries(rpt))| < numEntries
  {
    var i := 0;
    ghost var es := Entries(rpt);
    assert es[0..] == es;
    while i < numEntries
      invariant 0 <= i <= numEntries
      invariant |KnownPrefix(es)| == i + |KnownPrefix(es[i..])|
      invariant ApplyEntries(old(ep[..]), KnownPrefix(es)) == ApplyEntries(ep[..], KnownPrefix(es[i..]))
    {
      var id, n := rpt[2 * i], rpt[2 * i + 1];
      ghost var here := es[i..];
      assert here[0] == CreditEntry(id, n);
      if id >= ENDPOINT_MAX {
        return true;
      }
      assert here[1..] == es[i + 1..];
      ghost var known := KnownPrefix(here);
      assert known[1..] == KnownPrefix(es[i + 1..]);
      ProcessCreditEntry(ep, PoolOf(id), n);
      i := i + 1;
    }
    return false;
  }

  /** The switch of Htc_ProcessTrailer: what one record's body does. */
  method ProcessRecord(ep: array<Endpoint>, id: uint8, body: seq<uint8>, la: LookAhead) returns (outcome: Outcome)
    requires ep.Length == MANAGED_MAX
    modifies ep
    ensures Replayed(ep[..], outcome) == ReplayOne(Record(id, body), old(ep[..]), la)
  {
    if id == RECORD_CREDITS {
      var halted := ProcessCreditRpt(ep, body, |body| / 2);
      if halted {
        return Asserted;
      }
    } else if id == RECORD_LOOKAHEAD {
      if |body| < 6 {
        return Asserted;
      }
      if body[0] as int == 0xFF - body[5] as int {
        assert body[1..5] == [body[1], body[2], body[3], body[4]];
        return Done([body[1], body[2], body[3], body[4]]);
      }
    } else if id == RECORD_LOOKAHEAD_BUNDLE {
      return Asserted;
    }
    return Done(la);
  }

  lemma EffectStep(b: seq<uint8>, eps: seq<Endpoint>, la: LookAhead)
    requires |eps| == MANAGED_MAX
    ensures b == [] ==> Effect(b, eps, la) == Replayed(eps, Done(la))
    ensures b != [] && !StartsWithRecord(b) ==> Effect(b, eps, la) == Replayed(eps, Asserted)
    ensures StartsWithRecord(b) ==>
              var s := ReplayOne(FirstRecord(b), eps, la);
              Effect(b, eps, la) == if s.outcome.Asserted? then s else Effect(AfterRecord(b), s.eps, s.outcome.lookAhead)
  {
    if StartsWithRecord(b) {
      assert Records(b)[1..] == Records(AfterRecord(b));
    }
  }

  /** Htc_ProcessTrailer: walks the records with a moving position and a
      remaining length, touching nothing outside the trailer's bytes. */
  method ProcessTrailer(ep: array<Endpoint>, trailer: seq<uint8>) returns (outcome: Outcome)
    requires ep.Length == MANAGED_MAX
    modifies ep
    ensures Replayed(ep[..], outcome) == Effect(trailer, old(ep[..]), NO_LOOKAHEAD)
  {
    hide Effect, ReplayOne;
    var pos, length := 0, |trailer|;
    outcome := Done(NO_LOOKAHEAD);
    assert trailer[0..] == trailer;
    while length > 0
      invariant 0 <= pos && 0 <= length && pos + length == |trailer|
      invariant outcome.Done?
      invariant Effect(trailer, old(ep[..]), NO_LOOKAHEAD) == Effect(trailer[pos..], ep[..], outcome.lookAhead)
    {
      EffectStep(trailer[pos..], ep[..], outcome.lookAhead);
      if length < 2 {
        return Asserted;
      }
      var id, recLength := trailer[pos], trailer[pos + 1] as int;
      length := length - 2;
      pos := pos + 2;
      if recLength > length {
        return Asserted;
      }
      ghost var here := trailer[pos - 2..];
      assert FirstRecord(here) == Record(id, trailer[pos..pos + recLength]);
      assert AfterRecord(here) == trailer[pos + recLength..];
      outcome := ProcessRecord(ep, id, trailer[pos..pos + recLength], outcome.lookAhead);
      if outcome == Asserted {
        return;
      }
      pos := pos + recLength;
      length := length - recLength;
    }
    EffectStep(trailer[pos..], ep[..], outcome.lookAhead);
  }
}
