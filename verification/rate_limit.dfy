/** The per-IP token bucket limiter (pkg/ratelimit/ratelimit.go). Times are in milliseconds; tokens are reals. */
module RateLimit {
  datatype Bucket = Bucket(tokens: real, lastSeen: int)

  type Buckets = map<string, Bucket>

  datatype Config = Config(rate: real, burst: int)

  const TEN_MINUTES := 600_000
  const TICKS_IN_TEN_MINUTES := 6000

  function Full(cfg: Config): real {
    cfg.burst as real
  }

  function Topped(cfg: Config, b: Bucket): Bucket {
    var more := b.tokens + cfg.rate / 10.0;
    b.(tokens := if more > Full(cfg) then Full(cfg) else more)
  }

  function Refilled(cfg: Config, buckets: Buckets): Buckets {
    map ip | ip in buckets :: Topped(cfg, buckets[ip])
  }

  predicate Stale(b: Bucket, now: int) {
    b.lastSeen < now - TEN_MINUTES
  }

  function Cleaned(buckets: Buckets, now: int): Buckets {
    map ip | ip in buckets && !Stale(buckets[ip], now) :: buckets[ip]
  }

  /** An IP without a bucket stands for a full one. */
  function Tokens(cfg: Config, buckets: Buckets, ip: string): real {
    if ip in buckets then buckets[ip].tokens else Full(cfg)
  }

  predicate Admits(cfg: Config, buckets: Buckets, ip: string) {
    Tokens(cfg, buckets, ip) >= 1.0
  }

  function Seen(cfg: Config, buckets: Buckets, ip: string, now: int): Buckets {
    var tokens := Tokens(cfg, buckets, ip);
    buckets[ip := Bucket(if tokens >= 1.0 then tokens - 1.0 else tokens, now)]
  }

  class Limiter {
    const cfg: Config
    var buckets: Buckets

    constructor (rate: real, burst: int)
      ensures cfg == Config(rate, burst) && buckets == map[]
    {
      cfg, buckets := Config(rate, burst), map[];
    }

    /** One tick of refillLoop: every bucket once, in any order. */
    method Refill()
      modifies this
      ensures buckets == Refilled(cfg, old(buckets))
      ensures buckets.Keys == old(buckets).Keys
      ensures forall ip <- buckets ::
        var more := old(buckets)[ip].tokens + cfg.rate / 10.0;
        && buckets[ip].tokens == (if more > cfg.burst as real then cfg.burst as real else more)
        && buckets[ip].lastSeen == old(buckets)[ip].lastSeen
    {
      var left := buckets.Keys;
      while left != {}
        invariant left <= buckets.Keys == old(buckets).Keys
        invariant forall ip <- buckets ::
          buckets[ip] == if ip in left then old(buckets)[ip] else Topped(cfg, old(buckets)[ip])
        decreases |left|
      {
        var ip :| ip in left;
        var b := buckets[ip];
        b := b.(tokens := b.tokens + cfg.rate / 10.0);
        if b.tokens > cfg.burst as real {
          b := b.(tokens := cfg.burst as real);
        }
        buckets := buckets[ip := b];
        left := left - {ip};
      }
    }

    /** One tick of cleanupLoop. */
    method Cleanup(now: int)
      modifies this
      ensures buckets == Cleaned(old(buckets), now)
      ensures forall ip :: ip in buckets <==> ip in old(buckets) && old(buckets)[ip].lastSeen >= now - 10 * 60 * 1000
      ensures forall ip <- buckets :: buckets[ip] == old(buckets)[ip]
    {
      var left := buckets.Keys;
      while left != {}
        invariant left <= buckets.Keys <= old(buckets).Keys
        invariant forall ip <- old(buckets) :: ip in buckets <==> ip in left || !Stale(old(buckets)[ip], now)
        invariant forall ip <- buckets :: buckets[ip] == old(buckets)[ip]
        decreases |left|
      {
        var ip :| ip in left;
        if Stale(buckets[ip], now) {
          buckets := buckets - {ip};
        }
        left := left - {ip};
      }
    }

    method Allow(ip: string, now: int) returns (ok: bool)
      modifies this
      ensures ok == Admits(cfg, old(buckets), ip)
      ensures buckets == Seen(cfg, old(buckets), ip, now)
      ensures var tokens := if ip in old(buckets) then old(buckets)[ip].tokens else cfg.burst as real;
        && ok == (tokens >= 1.0)
        && buckets == old(buckets)[ip := Bucket(if ok then tokens - 1.0 else tokens, now)]
    {
      var b := if ip in buckets then buckets[ip] else Bucket(cfg.burst as real, now);
      b := b.(lastSeen := now);
      ok := b.tokens >= 1.0;
      if ok {
        b := b.(tokens := b.tokens - 1.0);
      }
      buckets := buckets[ip := b];
    }
  }
}
