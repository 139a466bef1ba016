/** Retransmission is bounded: every timeout scan that finds work spends retry budget, and no sequence number is
    reported more than `maxRetries` times in its life. */
module Retransmission {
  import opened Bytes
  import opened FrameCodec
  import opened Dedup
  import opened Session
  import opened Transport

  /** Retries left before the session dies, one more than the retry limit for each fresh entry. */
  ghost function Budget(q: seq<Entry>, max: nat): int {
    if q == [] then 0 else Budget(q[..|q| - 1], max) + max + 1 - q[|q| - 1].retries
  }

  ghost predicate Within(q: seq<Entry>, max: nat) { forall i :: 0 <= i < |q| ==> q[i].retries <= max }

  ghost predicate Expired(e: Entry, now: int) { now >= e.deadline }

  ghost predicate SomeExpired(q: seq<Entry>, now: int) { exists i :: 0 <= i < |q| && Expired(q[i], now) }

  ghost predicate Spent(q: seq<Entry>, now: int, max: nat) {
    exists i :: 0 <= i < |q| && Expired(q[i], now) && q[i].retries == max
  }

  /** The scan of a queue and of one entry more. */
  lemma ScanLast(q: seq<Entry>, e: Entry, now: int, cfg: Config)
    ensures var p, r := Scan(q, now, cfg), Scan(q + [e], now, cfg);
            if p.kill then r == p
            else if now < e.deadline then r == p.(queue := p.queue + [e])
            else if e.retries + 1 > cfg.maxRetries then r == p.(kill := true)
            else r == ScanResult(p.queue + [Bump(e, now, cfg)], p.timeouts + [e.sn], false)
  {
    assert (q + [e])[..|q|] == q;
    hide Bump;
  }

  lemma BudgetLast(q: seq<Entry>, e: Entry, max: nat)
    ensures Budget(q + [e], max) == Budget(q, max) + max + 1 - e.retries
    ensures Within(q + [e], max) <==> Within(q, max) && e.retries <= max
  {
    assert (q + [e])[..|q|] == q;
    var r := q + [e];
    if Within(r, max) {
      assert r[|q|].retries <= max;
      assert forall i :: 0 <= i < |q| ==> r[i].retries <= max;
    }
  }

  lemma ExpiredLast(q: seq<Entry>, e: Entry, now: int, max: nat)
    ensures Spent(q + [e], now, max) <==> Spent(q, now, max) || (Expired(e, now) && e.retries == max)
    ensures SomeExpired(q + [e], now) <==> SomeExpired(q, now) || Expired(e, now)
  {
    var r := q + [e];
    assert r[|q|] == e && forall i :: 0 <= i < |q| ==> r[i] == q[i];
  }

  /** A scan kills exactly when some expired entry has no retry left; otherwise it reports exactly the expired
      entries, in order, and spends one unit of budget for each. */
  lemma {:induction false} ScanSpends(q: seq<Entry>, now: int, cfg: Config)
    requires Within(q, cfg.maxRetries)
    ensures var r := Scan(q, now, cfg);
            && (r.kill <==> Spent(q, now, cfg.maxRetries))
            && (!r.kill ==> Within(r.queue, cfg.maxRetries) && |r.queue| == |q|
                            && Budget(r.queue, cfg.maxRetries) == Budget(q, cfg.maxRetries) - |r.timeouts|
                            && (r.timeouts != [] <==> SomeExpired(q, now)))
  {
    if q != [] {
      hide Scan, Budget, Within, Spent, SomeExpired;
      var k, max := |q| - 1, cfg.maxRetries;
      var init, e := q[..k], q[k];
      assert q == init + [e];
      BudgetLast(init, e, max);
      ScanSpends(init, now, cfg);
      ScanLast(init, e, now, cfg);
      ExpiredLast(init, e, now, max);
      BudgetLast(Scan(init, now, cfg).queue, e, max);
      BudgetLast(Scan(init, now, cfg).queue, Bump(e, now, cfg), max);
    }
  }

  lemma {:induction false} BudgetPositive(q: seq<Entry>, max: nat)
    requires Within(q, max)
    ensures Budget(q, max) >= |q|
  {
    if q != [] { BudgetPositive(q[..|q| - 1], max); }
  }

  /** The session after scans at the given times, with nothing sent or completed in between. */
  function Scans(s: SendSide, times: seq<int>, cfg: Config): SendSide {
    if times == [] then s else CheckRto(Scans(s, times[..|times| - 1], cfg), times[|times| - 1], cfg).0
  }

  /** Every scan finds the session active with an expired entry. */
  ghost predicate Productive(s: SendSide, times: seq<int>, cfg: Config) {
    forall i :: 0 <= i < |times| ==>
      var t := Scans(s, times[..i], cfg); t.active && SomeExpired(t.queue, times[i])
  }

  /** Productive scans spend budget one for one at least, so there are no more of them than the budget. */
  lemma {:induction false} ScansSpend(s: SendSide, times: seq<int>, cfg: Config)
    requires Within(s.queue, cfg.maxRetries) && s.active && Productive(s, times, cfg)
    ensures var t := Scans(s, times, cfg);
            && Within(t.queue, cfg.maxRetries)
            && (t.active ==> |t.queue| == |s.queue|)
            && (t.active ==> Budget(t.queue, cfg.maxRetries) <= Budget(s.queue, cfg.maxRetries) - |times|)
            && (!t.active ==> t.queue == [] && |times| <= Budget(s.queue, cfg.maxRetries))
  {
    hide Scan, Budget;
    if times != [] {
      var k := |times| - 1;
      assert forall i :: 0 <= i < k ==> times[..k][..i] == times[..i];
      ScansSpend(s, times[..k], cfg);
      var t := Scans(s, times[..k], cfg);
      assert t.active && SomeExpired(t.queue, times[k]);
      ScanSpends(t.queue, times[k], cfg);
      BudgetPositive(t.queue, cfg.maxRetries);
    }
  }

  /** With no new sends or completions the session is dead after at most `Budget` productive scans. */
  lemma {:induction false} DeadWithinBudget(s: SendSide, times: seq<int>, cfg: Config)
    requires Within(s.queue, cfg.maxRetries) && s.active && Productive(s, times, cfg)
    ensures |times| <= Budget(s.queue, cfg.maxRetries)
    ensures s.queue != [] && |times| == Budget(s.queue, cfg.maxRetries) ==> !Scans(s, times, cfg).active
  {
    hide Budget;
    ScansSpend(s, times, cfg);
    BudgetPositive(Scans(s, times, cfg).queue, cfg.maxRetries);
    BudgetPositive(s.queue, cfg.maxRetries);
  }

  // ---- reports over a sequence number's life ----

  ghost predicate ReportInv(p: Params, s: State) {
    && (forall e :: e in s.snd.queue ==> e.retries <= p.cfg.maxRetries && s.reports[e.sn] == e.retries)
    && (forall x: nat :: s.reports[x] <= p.cfg.maxRetries)
    && (forall x: nat :: x > |s.sent| ==> s.reports[x] == 0)
  }

  ghost predicate HasNumber(q: seq<Entry>, x: nat) { exists i :: 0 <= i < |q| && q[i].sn == x }

  lemma {:induction false} DueAreQueued(q: seq<Entry>, now: int, cfg: Config, x: nat)
    requires x in Scan(q, now, cfg).timeouts
    ensures HasNumber(q, x)
  {
    if q != [] {
      var k := |q| - 1;
      if x in Scan(q[..k], now, cfg).timeouts {
        DueAreQueued(q[..k], now, cfg, x);
        var i :| 0 <= i < k && q[..k][i].sn == x;
        assert q[i].sn == x;
      } else {
        assert q[k].sn == x;
      }
    }
  }

  /** A surviving scan reports the number at position `i` once if it expired, else not at all. */
  lemma {:induction false} ScanReports(q: seq<Entry>, now: int, cfg: Config, i: nat)
    requires Ordered(q) && !Scan(q, now, cfg).kill && i < |q|
    ensures multiset(Scan(q, now, cfg).timeouts)[q[i].sn] == if Expired(q[i], now) then 1 else 0
    ensures Expired(q[i], now) ==> q[i].retries < cfg.maxRetries
  {
    var k := |q| - 1;
    var p := Scan(q[..k], now, cfg);
    if i < k {
      ScanReports(q[..k], now, cfg, i);
    } else if q[k].sn in p.timeouts {
      DueAreQueued(q[..k], now, cfg, q[k].sn);
    }
  }

  lemma {:induction false} ReportTimeout(p: Params, s: State, now: int)
    requires WireInv(s) && ReportInv(p, s)
    ensures ReportInv(p, DoTimeout(p, s, now))
  {
    hide Scan, Decode;
    var t := DoTimeout(p, s, now);
    if s.snd.active && !Scan(s.snd.queue, now, p.cfg).kill {
      var q, due := s.snd.queue, Scan(s.snd.queue, now, p.cfg).timeouts;
      ScanAt(q, now, p.cfg);
      forall e | e in t.snd.queue
        ensures e.retries <= p.cfg.maxRetries && t.reports[e.sn] == e.retries
      {
        var i :| 0 <= i < |q| && t.snd.queue[i] == e;
        assert q[i] in s.snd.queue;
        ScanReports(q, now, p.cfg, i);
      }
      forall x: nat
        ensures t.reports[x] <= p.cfg.maxRetries
        ensures x > |s.sent| ==> t.reports[x] == 0
      {
        if x in due {
          DueAreQueued(q, now, p.cfg, x);
          var i :| 0 <= i < |q| && q[i].sn == x;
          assert q[i] in s.snd.queue && Matches(s, q[i]);
          ScanReports(q, now, p.cfg, i);
        }
      }
    }
  }

  lemma {:induction false} ReportStep(p: Params, s: State, step: Step)
    requires WireInv(s) && ReportInv(p, s)
    ensures ReportInv(p, Apply(p, s, step))
  {
    hide Decode, Patch, AckOfBytes, Unacked, RemoveFirst, Scan, Accept;
    match step
    case Timeout(now) => ReportTimeout(p, s, now);
    case RecvData(raw) => WireRecvData(p, s, raw);
    case RecvAck(i) =>
      if i < |s.acks| && AckOfBytes(s.acks[i]).Some? {
        UnackedKeeps(s.snd.queue, AckOfBytes(s.acks[i]).value.ackSeq);
      }
    case Complete(reqId) => RemoveKeeps(s.snd.queue, reqId);
    case _ =>
  }

  lemma {:induction false} ReportAlways(p: Params, steps: seq<Step>)
    ensures ReportInv(p, After(p, steps))
  {
    hide Apply;
    if steps != [] {
      var prefix := steps[..|steps| - 1];
      ReportAlways(p, prefix);
      WireAlways(p, prefix);
      ReportStep(p, After(p, prefix), steps[|steps| - 1]);
    }
  }

  /** In every run the timeout scan reports a sequence number at most `maxRetries` times. */
  lemma {:induction false} ReportedAtMost(p: Params, steps: seq<Step>, x: nat)
    ensures After(p, steps).reports[x] <= p.cfg.maxRetries
    ensures x > |After(p, steps).sent| ==> x !in After(p, steps).reports
  {
    hide After;
    ReportAlways(p, steps);
  }
}
