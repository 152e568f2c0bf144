/** Reading a message off the wire (pkg/smtp/session.go): the header scan and the counted stream. */
module SmtpHeaders {
  import opened BlobStore
  import opened Wrappers

  const CR: bv8 := 13
  const LF: bv8 := 10
  const CRLF: Content := [CR, LF]
  const MAX_HEADERS := 64 * 1024

  datatype ReadError = NoError | Eof | Broken

  /** Up to and including the first LF, or everything. */
  function FirstLine(s: Content): (line: Content)
    ensures line <= s
  {
    if s == [] then []
    else if s[0] == LF then [LF]
    else
      assert s == [s[0]] + s[1..];
      [s[0]] + FirstLine(s[1..])
  }

  lemma {:induction false} FirstLineShape(s: Content)
    ensures var line := FirstLine(s);
            && LF !in line[..if line == [] then 0 else |line| - 1]
            && (LF !in line ==> line == s)
  {
    if s != [] && s[0] != LF {
      FirstLineShape(s[1..]);
    }
  }

  /** A complete line that is not blank. */
  predicate IsHeader(line: Content) {
    LF in line && line != CRLF
  }

  function ScanFrom(s: Content, have: nat): (headers: Content)
    ensures headers <= s
    decreases |s|
  {
    var line := FirstLine(s);
    if have >= MAX_HEADERS then []
    else if !IsHeader(line) then line
    else
      assert s == line + s[|line|..];
      line + ScanFrom(s[|line|..], have + |line|)
  }

  /** Whether reading lines stops short of the end of `s`. */
  predicate StopsEarly(s: Content, have: nat)
    decreases |s|
  {
    var line := FirstLine(s);
    have >= MAX_HEADERS || line == CRLF || (LF in line && StopsEarly(s[|line|..], have + |line|))
  }

  /** The last line of `s` is blank. */
  predicate EndsBlank(s: Content) {
    |s| >= 2 && s[|s| - 2] == CR && s[|s| - 1] == LF && (|s| > 2 ==> s[|s| - 3] == LF)
  }

  lemma ScanUnfolds(s: Content, have: nat)
    requires have < MAX_HEADERS && IsHeader(FirstLine(s))
    ensures var line := FirstLine(s);
            && ScanFrom(s, have) == line + ScanFrom(s[|line|..], have + |line|)
            && (StopsEarly(s, have) <==> StopsEarly(s[|line|..], have + |line|))
  {
  }

  /** One turn of the scan after `buf` has been read. */
  lemma ReadsOn(buf: Content, rest: Content)
    requires |buf| < MAX_HEADERS && IsHeader(FirstLine(rest))
    ensures var line := FirstLine(rest);
            && buf + ScanFrom(rest, |buf|) == buf + line + ScanFrom(rest[|line|..], |buf + line|)
            && (StopsEarly(rest, |buf|) <==> StopsEarly(rest[|line|..], |buf + line|))
  {
    hide ScanFrom, StopsEarly, FirstLine, IsHeader;
    var line := FirstLine(rest);
    ScanUnfolds(rest, |buf|);
    assert |buf + line| == |buf| + |line|;
    var more := ScanFrom(rest[|line|..], |buf| + |line|);
    assert buf + (line + more) == buf + line + more;
  }

  lemma ReadsLast(rest: Content, have: nat)
    requires have < MAX_HEADERS && !IsHeader(FirstLine(rest))
    ensures ScanFrom(rest, have) == FirstLine(rest)
    ensures StopsEarly(rest, have) <==> FirstLine(rest) == CRLF
  {
  }

  lemma LimitReached(s: Content, have: nat)
    requires have >= MAX_HEADERS
    ensures ScanFrom(s, have) == [] && StopsEarly(s, have)
  {
  }

  class Reader {
    var rest: Content
    /** Whether the connection breaks after these bytes instead of ending the message. */
    const breaks: bool

    constructor (bytes: Content, breaks: bool)
      ensures rest == bytes && this.breaks == breaks
    {
      rest, this.breaks := bytes, breaks;
    }

    method ReadBytes() returns (line: Content, err: ReadError)
      modifies this
      ensures line == FirstLine(old(rest)) && rest == old(rest)[|line|..]
      ensures err == if LF in line then NoError else if breaks then Broken else Eof
    {
      line := FirstLine(rest);
      rest := rest[|line|..];
      err := if LF in line then NoError else if breaks then Broken else Eof;
    }
  }

  /** None when the connection breaks during the scan. */
  method ReadHeaders(r: Reader) returns (headers: Option<Content>)
    modifies r
    ensures headers.None? <==> r.breaks && !StopsEarly(old(r.rest), 0)
    ensures headers.Some? ==> headers.value == ScanFrom(old(r.rest), 0)
    ensures headers.Some? ==> headers.value + r.rest == old(r.rest)
  {
    hide ScanFrom, StopsEarly, FirstLine;
    var buf: Content := [];
    ghost var all := r.rest;
    while |buf| < MAX_HEADERS
      invariant buf + r.rest == all
      invariant buf + ScanFrom(r.rest, |buf|) == ScanFrom(all, 0)
      invariant StopsEarly(r.rest, |buf|) == StopsEarly(all, 0)
      decreases |r.rest|
    {
      if IsHeader(FirstLine(r.rest)) {
        ReadsOn(buf, r.rest);
      } else {
        ReadsLast(r.rest, |buf|);
      }
      var line, err := r.ReadBytes();
      buf := buf + line;
      if err != NoError {
        if err == Eof {
          return Some(buf);
        }
        return None;
      }
      if |line| == 2 && line[0] == CR && line[1] == LF {
        return Some(buf);
      }
    }
    LimitReached(r.rest, |buf|);
    return Some(buf);
  }

  /** The scan is a prefix of the message that stops after its first blank line, at its end, or beyond the limit. */
  lemma ScanStops(s: Content)
    ensures var h := ScanFrom(s, 0);
            && h <= s
            && (h == s || EndsBlank(h) || |h| >= MAX_HEADERS)
            && forall k :: 0 <= k < |h| ==> !EndsBlank(h[..k])
  {
    ScanFromStops([], s);
    assert [] + s == s && [] + ScanFrom(s, 0) == ScanFrom(s, 0);
  }

  /** `done` is what was read before: whole lines, none of them blank. */
  lemma {:induction false} ScanFromStops(done: Content, s: Content)
    requires done == [] || done[|done| - 1] == LF
    requires forall k :: 0 <= k <= |done| ==> !EndsBlank(done[..k])
    ensures var h := done + ScanFrom(s, |done|);
            && (h == done + s || EndsBlank(h) || |h| >= MAX_HEADERS)
            && forall k :: 0 <= k < |h| ==> !EndsBlank(h[..k])
    decreases |s|
  {
    hide ScanFrom, StopsEarly, EndsBlank, FirstLine;
    var line := FirstLine(s);
    if |done| >= MAX_HEADERS {
      LimitReached(s, |done|);
      assert done + [] == done;
    } else if IsHeader(line) {
      FirstLineShape(s);
      ReadsOn(done, s);
      WholeLine(done, line);
      assert (done + line) + s[|line|..] == done + s;
      ScanFromStops(done + line, s[|line|..]);
    } else {
      FirstLineShape(s);
      ReadsLast(s, |done|);
      forall k | 0 <= k < |done + line| ensures !EndsBlank((done + line)[..k]) {
        NotBlankYet(done, line, k);
      }
      BlankLine(done, line);
    }
  }

  lemma BlankLine(done: Content, line: Content)
    requires done == [] || done[|done| - 1] == LF
    ensures line == CRLF ==> EndsBlank(done + line)
  {
  }

  lemma NotBlankYet(done: Content, line: Content, k: nat)
    requires done == [] || done[|done| - 1] == LF
    requires forall j :: 0 <= j <= |done| ==> !EndsBlank(done[..j])
    requires LF !in line[..if line == [] then 0 else |line| - 1] && k < |done + line|
    ensures !EndsBlank((done + line)[..k])
  {
    if k <= |done| {
      assert (done + line)[..k] == done[..k];
    } else {
      assert (done + line)[..k][k - 1] == line[..|line| - 1][k - |done| - 1];
    }
  }

  lemma WholeLine(done: Content, line: Content)
    requires done == [] || done[|done| - 1] == LF
    requires forall j :: 0 <= j <= |done| ==> !EndsBlank(done[..j])
    requires LF in line && LF !in line[..|line| - 1] && line != CRLF
    ensures (done + line)[|done + line| - 1] == LF
    ensures forall j :: 0 <= j <= |done + line| ==> !EndsBlank((done + line)[..j])
  {
    var all := done + line;
    assert line == line[..|line| - 1] + [line[|line| - 1]];
    forall j | 0 <= j <= |all| ensures !EndsBlank(all[..j]) {
      if j < |all| {
        NotBlankYet(done, line, j);
      } else {
        assert all[..j] == all && all[|all| - 1] == line[|line| - 1];
        if |line| == 2 {
          assert all[|all| - 2] == line[0] && line == [line[0], LF];
        } else if |line| > 2 {
          assert all[|all| - 3] == line[..|line| - 1][|line| - 3];
        }
      }
    }
  }

  /** countingReader: adds up what its reads return. */
  class CountingReader {
    var rest: Content
    const breaks: bool
    var n: nat

    constructor (bytes: Content, breaks: bool)
      ensures rest == bytes && this.breaks == breaks && n == 0
    {
      rest, this.breaks, n := bytes, breaks, 0;
    }

    method Read(most: nat) returns (p: Content, err: ReadError)
      requires most > 0
      modifies this
      ensures p + rest == old(rest) && |p| <= most && n == old(n) + |p|
      ensures err == if old(rest) != [] then NoError else if breaks then Broken else Eof
      ensures old(rest) != [] ==> p != []
    {
      var k := if |rest| < most then |rest| else most;
      err := if rest != [] then NoError else if breaks then Broken else Eof;
      p, rest, n := rest[..k], rest[k..], n + k;
    }
  }

  /** io.ReadAll, with any positive buffer size. */
  method ReadAll(r: CountingReader, most: nat) returns (data: Option<Content>)
    requires most > 0
    modifies r
    ensures data == if r.breaks then None else Some(old(r.rest))
    ensures r.n == old(r.n) + |old(r.rest)|
  {
    var buf: Content := [];
    while true
      invariant buf + r.rest == old(r.rest) && r.n == old(r.n) + |buf|
      decreases |r.rest|
    {
      var p, err := r.Read(most);
      buf := buf + p;
      if err != NoError {
        return if err == Eof then Some(buf) else None;
      }
    }
  }
}
