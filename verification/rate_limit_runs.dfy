/** Over whole runs: eviction goes unnoticed, and no IP gets more than its share. */
module RateLimitRuns {
  import opened RateLimit

  datatype Event = Refill | Cleanup(at: int) | Allow(ip: string, at: int)

  function Step(cfg: Config, buckets: Buckets, e: Event, evict: bool): Buckets {
    match e
    case Refill => Refilled(cfg, buckets)
    case Cleanup(at) => if evict then Cleaned(buckets, at) else buckets
    case Allow(ip, at) => Seen(cfg, buckets, ip, at)
  }

  function Init<T>(s: seq<T>): seq<T>
    requires s != []
  {
    s[..|s| - 1]
  }

  function Last<T>(s: seq<T>): T
    requires s != []
  {
    s[|s| - 1]
  }

  /** The buckets after the events, for the limiter (`evict`) or for one that never drops a bucket. */
  function After(cfg: Config, es: seq<Event>, evict: bool): Buckets {
    if es == [] then map[] else Step(cfg, After(cfg, Init(es), evict), Last(es), evict)
  }

  function Ticks(es: seq<Event>): nat {
    if es == [] then 0 else Ticks(Init(es)) + if Last(es).Refill? then 1 else 0
  }

  /** What `k` ticks can add to a bucket. */
  function Supply(cfg: Config, k: nat): real {
    if k == 0 then 0.0 else Supply(cfg, k - 1) + cfg.rate / 10.0
  }

  lemma {:induction false} SupplyIsLinear(cfg: Config, k: nat)
    ensures Supply(cfg, k) == k as real * cfg.rate / 10.0
  {
    if k > 0 {
      SupplyIsLinear(cfg, k - 1);
      assert k as real * cfg.rate == (k - 1) as real * cfg.rate + cfg.rate;
    }
  }

  lemma {:induction false} SupplyGrows(cfg: Config, j: nat, k: nat)
    requires cfg.rate >= 0.0 && j <= k
    ensures Supply(cfg, j) <= Supply(cfg, k)
  {
    if j < k {
      SupplyGrows(cfg, j, k - 1);
    }
  }

  function Min(a: real, b: real): real {
    if a <= b then a else b
  }

  /** The refill ticker keeps up: ten minutes without a request from an IP see at least 6000 ticks. */
  ghost predicate Paced(es: seq<Event>) {
    forall i, j :: 0 <= i < j < |es| && es[i].Allow? && es[j].Cleanup? && es[j].at - es[i].at > TEN_MINUTES ==>
      Ticks(es[..j]) - Ticks(es[..i]) >= TICKS_IN_TEN_MINUTES
  }

  /** Ten minutes of ticks fill an empty bucket. */
  predicate FillsInTime(cfg: Config) {
    600.0 * cfg.rate >= Full(cfg)
  }

  /** The position of the latest request from `ip`. */
  function LatestAllow(es: seq<Event>, ip: string): int
    ensures -1 <= LatestAllow(es, ip) < |es|
    ensures LatestAllow(es, ip) >= 0 ==> es[LatestAllow(es, ip)].Allow? && es[LatestAllow(es, ip)].ip == ip
  {
    if es == [] then -1
    else if Last(es).Allow? && Last(es).ip == ip then |es| - 1
    else LatestAllow(Init(es), ip)
  }

  /** Without eviction, a bucket holds at least what came in since its IP was last seen. */
  lemma {:induction false} BucketHistory(cfg: Config, es: seq<Event>, ip: string)
    requires cfg.rate >= 0.0
    ensures var buckets, i := After(cfg, es, false), LatestAllow(es, ip);
      && Tokens(cfg, buckets, ip) <= Full(cfg)
      && (ip in buckets <==> i >= 0)
      && (ip in buckets ==>
           && buckets[ip].lastSeen == es[i].at
           && Ticks(es[..i]) <= Ticks(es)
           && buckets[ip].tokens >= Min(Full(cfg), Supply(cfg, Ticks(es) - Ticks(es[..i]))))
  {
    if es != [] {
      BucketHistory(cfg, Init(es), ip);
      var i := LatestAllow(Init(es), ip);
      if i >= 0 {
        assert Init(es)[..i] == es[..i];
        SupplyGrows(cfg, 0, Ticks(Init(es)) - Ticks(es[..i]));
      }
      if Last(es).Allow? && Last(es).ip == ip {
        assert es[..|es| - 1] == Init(es);
      }
    }
  }

  lemma PacedPrefix(es: seq<Event>)
    requires es != [] && Paced(es)
    ensures Paced(Init(es))
  {
    var pre := Init(es);
    forall i, j | 0 <= i < j < |pre| && pre[i].Allow? && pre[j].Cleanup? && pre[j].at - pre[i].at > TEN_MINUTES
      ensures Ticks(pre[..j]) - Ticks(pre[..i]) >= TICKS_IN_TEN_MINUTES
    {
      assert pre[..j] == es[..j] && pre[..i] == es[..i];
    }
  }

  /** Only full buckets are ever dropped. */
  ghost predicate Simulates(cfg: Config, evicting: Buckets, keeping: Buckets) {
    forall ip :: Tokens(cfg, evicting, ip) == Tokens(cfg, keeping, ip)
      && (ip in evicting ==> ip in keeping && evicting[ip] == keeping[ip])
  }

  lemma {:induction false} EvictionSimulates(cfg: Config, es: seq<Event>)
    requires cfg.rate >= 0.0 && FillsInTime(cfg) && Paced(es)
    ensures Simulates(cfg, After(cfg, es, true), After(cfg, es, false))
  {
    if es != [] {
      PacedPrefix(es);
      EvictionSimulates(cfg, Init(es));
      var evicting, keeping := After(cfg, Init(es), true), After(cfg, Init(es), false);
      forall ip
        ensures Tokens(cfg, After(cfg, es, true), ip) == Tokens(cfg, After(cfg, es, false), ip)
        ensures ip in After(cfg, es, true) ==>
          ip in After(cfg, es, false) && After(cfg, es, true)[ip] == After(cfg, es, false)[ip]
      {
        assert Tokens(cfg, evicting, ip) == Tokens(cfg, keeping, ip);
        BucketHistory(cfg, Init(es), ip);
        if Last(es).Cleanup? && ip in evicting && Stale(evicting[ip], Last(es).at) {
          StaleIsFull(cfg, es, ip);
        }
      }
    }
  }

  /** A bucket stale at a cleanup has had time to fill up. */
  lemma StaleIsFull(cfg: Config, es: seq<Event>, ip: string)
    requires cfg.rate >= 0.0 && FillsInTime(cfg) && Paced(es)
    requires es != [] && Last(es).Cleanup?
    requires ip in After(cfg, Init(es), false) && Stale(After(cfg, Init(es), false)[ip], Last(es).at)
    ensures After(cfg, Init(es), false)[ip].tokens == Full(cfg)
  {
    BucketHistory(cfg, Init(es), ip);
    var i, j := LatestAllow(Init(es), ip), |es| - 1;
    assert es[i] == Init(es)[i] && es[..i] == Init(es)[..i];
    assert es[j].at - es[i].at > TEN_MINUTES;
    SupplyGrows(cfg, TICKS_IN_TEN_MINUTES, Ticks(es[..j]) - Ticks(es[..i]));
    SupplyIsLinear(cfg, TICKS_IN_TEN_MINUTES);
  }

  /** Every request is answered as if no bucket were ever dropped. */
  ghost predicate EvictionUnnoticed(cfg: Config, es: seq<Event>) {
    forall n :: 0 <= n < |es| && es[n].Allow? ==>
      (Admits(cfg, After(cfg, es[..n], true), es[n].ip) <==> Admits(cfg, After(cfg, es[..n], false), es[n].ip))
  }

  lemma PacedTake(es: seq<Event>, n: nat)
    requires n <= |es| && Paced(es)
    ensures Paced(es[..n])
    decreases |es|
  {
    if n == |es| {
      assert es[..n] == es;
    } else {
      PacedPrefix(es);
      PacedTake(Init(es), n);
      assert Init(es)[..n] == es[..n];
    }
  }

  lemma EvictionIsSound(cfg: Config, es: seq<Event>)
    requires cfg.rate >= 0.0 && FillsInTime(cfg) && Paced(es)
    ensures EvictionUnnoticed(cfg, es)
  {
    forall n | 0 <= n < |es| && es[n].Allow?
      ensures Admits(cfg, After(cfg, es[..n], true), es[n].ip) <==> Admits(cfg, After(cfg, es[..n], false), es[n].ip)
    {
      PacedTake(es, n);
      EvictionSimulates(cfg, es[..n]);
    }
  }

  // ----- The condition is exact -----

  function Times(e: Event, n: nat): (r: seq<Event>)
    ensures |r| == n && forall i :: 0 <= i < n ==> r[i] == e
  {
    seq(n, _ => e)
  }

  lemma TimesInit(pre: seq<Event>, e: Event, n: nat)
    requires n > 0
    ensures Init(pre + Times(e, n)) == pre + Times(e, n - 1) && Last(pre + Times(e, n)) == e
  {
  }

  lemma {:induction false} TicksTimes(pre: seq<Event>, e: Event, n: nat)
    ensures Ticks(pre + Times(e, n)) == Ticks(pre) + if e.Refill? then n else 0
  {
    if n == 0 {
      assert pre + Times(e, n) == pre;
    } else {
      TimesInit(pre, e, n);
      TicksTimes(pre, e, n - 1);
    }
  }

  /** `n` requests use up `n` tokens if they are there; with fewer than `n + 1` they leave less than one. */
  lemma {:induction false} Requests(cfg: Config, pre: seq<Event>, ip: string, at: int, n: nat, evict: bool)
    ensures var before := Tokens(cfg, After(cfg, pre, evict), ip);
      var buckets := After(cfg, pre + Times(Allow(ip, at), n), evict);
      && (before >= n as real ==> Tokens(cfg, buckets, ip) == before - n as real)
      && (before < n as real + 1.0 ==> Tokens(cfg, buckets, ip) < 1.0)
      && (n > 0 ==> ip in buckets && buckets[ip].lastSeen == at)
  {
    if n == 0 {
      assert pre + Times(Allow(ip, at), n) == pre;
    } else {
      TimesInit(pre, Allow(ip, at), n);
      Requests(cfg, pre, ip, at, n - 1, evict);
    }
  }

  lemma {:induction false} Refills(cfg: Config, pre: seq<Event>, ip: string, n: nat, evict: bool)
    requires cfg.rate >= 0.0
    requires ip in After(cfg, pre, evict) && After(cfg, pre, evict)[ip].tokens == 0.0 <= Full(cfg)
    ensures var buckets := After(cfg, pre + Times(Refill, n), evict);
      && ip in buckets
      && buckets[ip] == Bucket(Min(Full(cfg), Supply(cfg, n)), After(cfg, pre, evict)[ip].lastSeen)
  {
    if n == 0 {
      assert pre + Times(Refill, n) == pre;
    } else {
      TimesInit(pre, Refill, n);
      Refills(cfg, pre, ip, n - 1, evict);
    }
  }

  /** Drain the bucket, let it refill for ten minutes, clean up, and drain it again. */
  function Idler(cfg: Config, ip: string): seq<Event>
    requires cfg.burst > 0
  {
    Times(Allow(ip, 0), cfg.burst) + Times(Refill, TICKS_IN_TEN_MINUTES) + [Cleanup(TEN_MINUTES + 1)]
    + Times(Allow(ip, TEN_MINUTES + 1), cfg.burst)
  }

  lemma IdlerIsPaced(cfg: Config, ip: string)
    requires cfg.burst > 0
    ensures Paced(Idler(cfg, ip))
  {
    var es := Idler(cfg, ip);
    var first := Times(Allow(ip, 0), cfg.burst);
    forall i, j | 0 <= i < j < |es| && es[i].Allow? && es[j].Cleanup? && es[j].at - es[i].at > TEN_MINUTES
      ensures Ticks(es[..j]) - Ticks(es[..i]) >= TICKS_IN_TEN_MINUTES
    {
      assert es[..j] == first + Times(Refill, TICKS_IN_TEN_MINUTES);
      assert es[..i] == [] + Times(Allow(ip, 0), i);
      assert first == [] + first;
      TicksTimes([], Allow(ip, 0), i);
      TicksTimes([], Allow(ip, 0), cfg.burst);
      TicksTimes(first, Refill, TICKS_IN_TEN_MINUTES);
    }
  }

  lemma IdlerShowsEviction(cfg: Config, ip: string)
    requires cfg.rate >= 0.0 && !FillsInTime(cfg)
    ensures cfg.burst > 0 && !EvictionUnnoticed(cfg, Idler(cfg, ip))
  {
    hide Paced;
    var es := Idler(cfg, ip);
    var first := Times(Allow(ip, 0), cfg.burst);
    var refilled := first + Times(Refill, TICKS_IN_TEN_MINUTES);
    var cleaned := refilled + [Cleanup(TEN_MINUTES + 1)];
    var n := |es| - 1;
    assert es[..n] == cleaned + Times(Allow(ip, TEN_MINUTES + 1), cfg.burst - 1);
    assert Init(cleaned) == refilled;
    assert [] + first == first;
    forall evict: bool
      ensures Admits(cfg, After(cfg, es[..n], evict), ip) == evict
    {
      Requests(cfg, [], ip, 0, cfg.burst, evict);
      Refills(cfg, first, ip, TICKS_IN_TEN_MINUTES, evict);
      SupplyIsLinear(cfg, TICKS_IN_TEN_MINUTES);
      assert Tokens(cfg, After(cfg, refilled, evict), ip) < Full(cfg);
      Requests(cfg, cleaned, ip, TEN_MINUTES + 1, cfg.burst - 1, evict);
    }
    assert es[n] == Allow(ip, TEN_MINUTES + 1);
    assert Admits(cfg, After(cfg, es[..n], true), es[n].ip) && !Admits(cfg, After(cfg, es[..n], false), es[n].ip);
  }

  /** Eviction goes unnoticed in all paced runs if and only if ten minutes of ticks fill a bucket. */
  lemma EvictionUnnoticedExactly(cfg: Config)
    requires cfg.rate >= 0.0
    ensures (forall es :: Paced(es) ==> EvictionUnnoticed(cfg, es)) <==> FillsInTime(cfg)
  {
    if FillsInTime(cfg) {
      forall es | Paced(es)
        ensures EvictionUnnoticed(cfg, es)
      {
        EvictionIsSound(cfg, es);
      }
    } else {
      IdlerShowsEviction(cfg, "192.0.2.1");
      IdlerIsPaced(cfg, "192.0.2.1");
    }
  }

  // ----- How much one IP can get -----

  /** How many requests from `ip` are admitted from position `m` on. */
  function Admitted(cfg: Config, es: seq<Event>, ip: string, m: nat): nat {
    if |es| <= m then 0
    else
      Admitted(cfg, Init(es), ip, m)
      + if Last(es).Allow? && Last(es).ip == ip && Admits(cfg, After(cfg, Init(es), true), ip) then 1 else 0
  }

  lemma CleanupUnnoticed(cfg: Config, es: seq<Event>, ip: string)
    requires cfg.rate >= 0.0 && FillsInTime(cfg) && Paced(es) && es != [] && Last(es).Cleanup?
    ensures Tokens(cfg, After(cfg, es, true), ip) == Tokens(cfg, After(cfg, Init(es), true), ip)
  {
    PacedPrefix(es);
    EvictionSimulates(cfg, es);
    EvictionSimulates(cfg, Init(es));
  }

  lemma {:induction false} TokensAreConserved(cfg: Config, es: seq<Event>, ip: string, m: nat)
    requires cfg.rate >= 0.0 && FillsInTime(cfg) && Paced(es) && m <= |es|
    ensures Ticks(es[..m]) <= Ticks(es)
    ensures Admitted(cfg, es, ip, m) as real + Tokens(cfg, After(cfg, es, true), ip)
         <= Tokens(cfg, After(cfg, es[..m], true), ip) + Supply(cfg, Ticks(es) - Ticks(es[..m]))
    decreases |es|
  {
    hide Paced, FillsInTime;
    if m == |es| {
      assert es[..m] == es;
    } else {
      PacedPrefix(es);
      TokensAreConserved(cfg, Init(es), ip, m);
      assert Init(es)[..m] == es[..m];
      if Last(es).Cleanup? {
        CleanupUnnoticed(cfg, es, ip);
      }
    }
  }

  lemma TokensInRange(cfg: Config, es: seq<Event>, ip: string)
    requires cfg.rate >= 0.0 && FillsInTime(cfg) && Paced(es)
    ensures Min(Full(cfg), 0.0) <= Tokens(cfg, After(cfg, es, true), ip) <= Full(cfg)
  {
    EvictionSimulates(cfg, es);
    BucketHistory(cfg, es, ip);
    var i := LatestAllow(es, ip);
    if i >= 0 {
      SupplyGrows(cfg, 0, Ticks(es) - Ticks(es[..i]));
    }
  }

  lemma WindowSupply(cfg: Config, es: seq<Event>, ip: string, m: nat)
    requires cfg.rate >= 0.0 && FillsInTime(cfg) && Paced(es) && m <= |es|
    ensures Ticks(es[..m]) <= Ticks(es)
    ensures Admitted(cfg, es, ip, m) as real <= Max0(Full(cfg)) + Supply(cfg, Ticks(es) - Ticks(es[..m]))
  {
    TokensAreConserved(cfg, es, ip, m);
    PacedTake(es, m);
    TokensInRange(cfg, es, ip);
    TokensInRange(cfg, es[..m], ip);
  }

  function Max0(a: real): real {
    if a > 0.0 then a else 0.0
  }

  /** A window with k refill ticks admits at most burst + k * rate / 10 requests of one IP, wherever it lies in the run. */
  lemma WindowBound(cfg: Config, es: seq<Event>, ip: string, m: nat, k: nat)
    requires cfg.rate >= 0.0 && FillsInTime(cfg) && Paced(es) && m <= |es|
    requires Ticks(es) == Ticks(es[..m]) + k
    ensures Admitted(cfg, es, ip, m) as real <= Max0(Full(cfg)) + k as real * cfg.rate / 10.0
  {
    WindowSupply(cfg, es, ip, m);
    SupplyIsLinear(cfg, k);
  }

  /** Of one IP's requests from position m on, no more are admitted than burst plus what the ticks since bring. */
  ghost predicate WithinShare(cfg: Config, es: seq<Event>, ip: string, m: nat)
    requires m <= |es|
  {
    Admitted(cfg, es, ip, m) as real <= Max0(Full(cfg)) + (Ticks(es) - Ticks(es[..m])) as real * cfg.rate / 10.0
  }

  lemma {:induction false} AllAdmitted(cfg: Config, pre: seq<Event>, ip: string, at: int, n: nat)
    requires Tokens(cfg, After(cfg, pre, true), ip) >= n as real
    ensures Admitted(cfg, pre + Times(Allow(ip, at), n), ip, 0) == Admitted(cfg, pre, ip, 0) + n
  {
    if n == 0 {
      assert pre + Times(Allow(ip, at), n) == pre;
    } else {
      TimesInit(pre, Allow(ip, at), n);
      AllAdmitted(cfg, pre, ip, at, n - 1);
      Requests(cfg, pre, ip, at, n - 1, true);
    }
  }

  lemma {:induction false} RefillsAdmitNone(cfg: Config, pre: seq<Event>, ip: string, n: nat)
    ensures Admitted(cfg, pre + Times(Refill, n), ip, 0) == Admitted(cfg, pre, ip, 0)
  {
    if n == 0 {
      assert pre + Times(Refill, n) == pre;
    } else {
      TimesInit(pre, Refill, n);
      RefillsAdmitNone(cfg, pre, ip, n - 1);
    }
  }

  lemma IdlerTicks(cfg: Config, ip: string)
    requires cfg.burst > 0
    ensures Ticks(Idler(cfg, ip)) == TICKS_IN_TEN_MINUTES && Ticks(Idler(cfg, ip)[..0]) == 0
  {
    hide Ticks;
    var first := Times(Allow(ip, 0), cfg.burst);
    var refilled := first + Times(Refill, TICKS_IN_TEN_MINUTES);
    var cleaned := refilled + [Cleanup(TEN_MINUTES + 1)];
    assert [] + first == first && refilled + Times(Cleanup(TEN_MINUTES + 1), 1) == cleaned;
    TicksTimes([], Refill, 0);
    TicksTimes([], Allow(ip, 0), cfg.burst);
    TicksTimes(first, Refill, TICKS_IN_TEN_MINUTES);
    TicksTimes(refilled, Cleanup(TEN_MINUTES + 1), 1);
    TicksTimes(cleaned, Allow(ip, TEN_MINUTES + 1), cfg.burst);
    assert Idler(cfg, ip)[..0] == [];
    NoTicks();
  }

  lemma NoTicks()
    ensures Ticks([]) == 0
  {
  }

  /** Of the idler's requests, all are admitted: before it pauses, and after its bucket has been dropped. */
  lemma IdlerAdmitted(cfg: Config, ip: string)
    requires cfg.rate >= 0.0 && cfg.burst > 0
    ensures Admitted(cfg, Idler(cfg, ip), ip, 0) == 2 * cfg.burst
  {
    hide After, Admitted, Supply;
    var first := Times(Allow(ip, 0), cfg.burst);
    var refilled := first + Times(Refill, TICKS_IN_TEN_MINUTES);
    var cleaned := refilled + [Cleanup(TEN_MINUTES + 1)];
    assert [] + first == first;
    NothingYet(cfg, ip);
    AllAdmitted(cfg, [], ip, 0, cfg.burst);
    Requests(cfg, [], ip, 0, cfg.burst, true);
    RefillsAdmitNone(cfg, first, ip, TICKS_IN_TEN_MINUTES);
    Refills(cfg, first, ip, TICKS_IN_TEN_MINUTES, true);
    CleanupEvicts(cfg, refilled, ip);
    AllAdmitted(cfg, cleaned, ip, TEN_MINUTES + 1, cfg.burst);
  }

  lemma NothingYet(cfg: Config, ip: string)
    ensures Admitted(cfg, [], ip, 0) == 0 && Tokens(cfg, After(cfg, [], true), ip) == Full(cfg)
  {
  }

  lemma CleanupEvicts(cfg: Config, pre: seq<Event>, ip: string)
    requires ip in After(cfg, pre, true) && After(cfg, pre, true)[ip].lastSeen == 0
    ensures Tokens(cfg, After(cfg, pre + [Cleanup(TEN_MINUTES + 1)], true), ip) == Full(cfg)
    ensures Admitted(cfg, pre + [Cleanup(TEN_MINUTES + 1)], ip, 0) == Admitted(cfg, pre, ip, 0)
  {
    assert Init(pre + [Cleanup(TEN_MINUTES + 1)]) == pre;
  }

  /** If ten minutes do not fill a bucket, eviction hands the idler a second full one too soon. */
  lemma IdlerOverdraws(cfg: Config, ip: string)
    requires cfg.rate >= 0.0 && !FillsInTime(cfg)
    ensures cfg.burst > 0 && !WithinShare(cfg, Idler(cfg, ip), ip, 0)
  {
    hide Admitted, Ticks, Idler;
    IdlerAdmitted(cfg, ip);
    IdlerTicks(cfg, ip);
    assert (2 * cfg.burst) as real == 2.0 * cfg.burst as real;
  }

  lemma KeepsWithinShare(cfg: Config, es: seq<Event>, ip: string, m: nat)
    requires cfg.rate >= 0.0 && FillsInTime(cfg) && Paced(es) && m <= |es|
    ensures WithinShare(cfg, es, ip, m)
  {
    hide Admitted, Ticks, Paced;
    WindowSupply(cfg, es, ip, m);
    WindowBound(cfg, es, ip, m, Ticks(es) - Ticks(es[..m]));
  }

  /** Every IP keeps to its share in every window of every paced run if and only if ten minutes of ticks fill a bucket. */
  lemma WindowBoundExactly(cfg: Config)
    requires cfg.rate >= 0.0
    ensures (forall es, ip, m: nat :: Paced(es) && m <= |es| ==> WithinShare(cfg, es, ip, m)) <==> FillsInTime(cfg)
  {
    hide WithinShare, Paced, Idler;
    if FillsInTime(cfg) {
      forall es, ip, m: nat | Paced(es) && m <= |es|
        ensures WithinShare(cfg, es, ip, m)
      {
        KeepsWithinShare(cfg, es, ip, m);
      }
    } else {
      IdlerOverdraws(cfg, "192.0.2.1");
      IdlerIsPaced(cfg, "192.0.2.1");
    }
  }

  /** The run without the requests of other IPs. */
  function Project(es: seq<Event>, ip: string): seq<Event> {
    if es == [] then []
    else Project(Init(es), ip) + if Last(es).Allow? && Last(es).ip != ip then [] else [Last(es)]
  }

  /** Whatever other IPs do, a bucket ends up the same. */
  lemma {:induction false} IpsAreIndependent(cfg: Config, es: seq<Event>, ip: string, evict: bool)
    ensures var all, own := After(cfg, es, evict), After(cfg, Project(es, ip), evict);
      && (ip in all <==> ip in own)
      && (ip in all ==> all[ip] == own[ip])
  {
    if es != [] {
      IpsAreIndependent(cfg, Init(es), ip, evict);
      var rest, e := Project(Init(es), ip), Last(es);
      if e.Allow? && e.ip != ip {
        assert Project(es, ip) == rest;
      } else {
        assert Init(Project(es, ip)) == rest && Last(Project(es, ip)) == e;
      }
    }
  }
}
