/** The report generator's base64 encoder with 76-character lines (pkg/dmarc/report.go). */
module Base64 {
  import opened Wrappers

  type Octets = seq<Octet>

  type Sextet = v: int | 0 <= v < 64

  const LINE := 76
  const CRLF: string := "\r\n"

  /** Table 1 of RFC 4648. */
  function Symbol(value: Sextet): char {
    if value < 26 then 'A' + value as char
    else if value < 52 then 'a' + (value - 26) as char
    else if value < 62 then '0' + (value - 52) as char
    else if value == 62 then '+'
    else '/'
  }

  // The four sextets of three octets; shifts and masks are written as division, remainder and sum.

  function First(a: Octet): Sextet { a as int / 4 }

  function Second(a: Octet, b: Octet): Sextet { a as int % 4 * 16 + b as int / 16 }

  function Third(b: Octet, c: Octet): Sextet { b as int % 16 * 4 + c as int / 64 }

  function Fourth(c: Octet): Sextet { c as int % 64 }

  /** Section 4 of RFC 4648: three octets give four symbols; a shorter group is filled up with '='. */
  function Group(g: Octets): (symbols: string)
    requires 1 <= |g| <= 3
    ensures |symbols| == 4
  {
    if |g| == 1 then [Symbol(First(g[0])), Symbol(Second(g[0], 0)), '=', '=']
    else if |g| == 2 then [Symbol(First(g[0])), Symbol(Second(g[0], g[1])), Symbol(Third(g[1], 0)), '=']
    else [Symbol(First(g[0])), Symbol(Second(g[0], g[1])), Symbol(Third(g[1], g[2])), Symbol(Fourth(g[2]))]
  }

  function Encoded(data: Octets): string {
    if data == [] then "" else if |data| <= 3 then Group(data) else Group(data[..3]) + Encoded(data[3..])
  }

  /** Section 6.8 of RFC 2045: a line break after every 76 symbols. */
  function Wrapped(s: string): string {
    if |s| < LINE then s else s[..LINE] + CRLF + Wrapped(s[LINE..])
  }

  // ----- The decoder -----

  function ValueOf(c: char): Option<Sextet> {
    if 'A' <= c <= 'Z' then Some((c - 'A') as int)
    else if 'a' <= c <= 'z' then Some((c - 'a') as int + 26)
    else if '0' <= c <= '9' then Some((c - '0') as int + 52)
    else if c == '+' then Some(62)
    else if c == '/' then Some(63)
    else None
  }

  function FromFirst(w: Sextet, x: Sextet): Octet { (w * 4 + x / 16) as Octet }

  function FromSecond(x: Sextet, y: Sextet): Octet { (x % 16 * 16 + y / 4) as Octet }

  function FromThird(y: Sextet, z: Sextet): Octet { (y % 4 * 64 + z) as Octet }

  /** The octets of one group of four symbols; only the last group may be padded. */
  function DecodeGroup(s: string, last: bool): Option<Octets>
    requires |s| == 4
  {
    match (ValueOf(s[0]), ValueOf(s[1]), ValueOf(s[2]), ValueOf(s[3]))
    case (Some(w), Some(x), Some(y), Some(z)) => Some([FromFirst(w, x), FromSecond(x, y), FromThird(y, z)])
    case (Some(w), Some(x), Some(y), None) =>
      if last && s[3] == '=' then Some([FromFirst(w, x), FromSecond(x, y)]) else None
    case (Some(w), Some(x), None, None) =>
      if last && s[2] == '=' && s[3] == '=' then Some([FromFirst(w, x)]) else None
    case _ => None
  }

  function Decoded(s: string): Option<Octets> {
    if s == "" then Some([])
    else if |s| < 4 then None
    else
      match (DecodeGroup(s[..4], |s| == 4), Decoded(s[4..]))
      case (Some(group), Some(rest)) => Some(group + rest)
      case _ => None
  }

  predicate LineBreak(c: char) {
    c == '\r' || c == '\n'
  }

  function DropLineBreaks(s: string): string {
    if s == "" then "" else (if LineBreak(s[0]) then "" else [s[0]]) + DropLineBreaks(s[1..])
  }

  // ----- Round trip -----

  lemma SymbolRoundTrip(value: Sextet)
    ensures ValueOf(Symbol(value)) == Some(value)
  {
  }

  /** The decoder's sums undo the encoder's split of three octets. */
  lemma SextetsJoin(a: Octet, b: Octet, c: Octet)
    ensures FromFirst(First(a), Second(a, b)) == a
    ensures FromSecond(Second(a, b), Third(b, c)) == b
    ensures FromThird(Third(b, c), Fourth(c)) == c
  {
  }

  lemma PadIsNoSymbol()
    ensures ValueOf('=') == None
  {
  }

  lemma GroupOfOne(a: Octet)
    ensures DecodeGroup(Group([a]), true) == Some([a])
  {
  }

  lemma GroupOfTwo(a: Octet, b: Octet)
    ensures DecodeGroup(Group([a, b]), true) == Some([a, b])
  {
    hide Symbol, ValueOf, First, Second, Third, Fourth, FromFirst, FromSecond, FromThird;
    PadIsNoSymbol();
    SextetsJoin(a, b, 0);
    SymbolRoundTrip(First(a));
    SymbolRoundTrip(Second(a, b));
    SymbolRoundTrip(Third(b, 0));
  }

  lemma GroupOfThree(a: Octet, b: Octet, c: Octet, last: bool)
    ensures DecodeGroup(Group([a, b, c]), last) == Some([a, b, c])
  {
    hide Symbol, ValueOf, First, Second, Third, Fourth, FromFirst, FromSecond, FromThird;
    SextetsJoin(a, b, c);
    SymbolRoundTrip(First(a));
    SymbolRoundTrip(Second(a, b));
    SymbolRoundTrip(Third(b, c));
    SymbolRoundTrip(Fourth(c));
  }

  lemma GroupRoundTrip(g: Octets, last: bool)
    requires 1 <= |g| <= 3 && (|g| < 3 ==> last)
    ensures DecodeGroup(Group(g), last) == Some(g)
  {
    hide Group, DecodeGroup;
    if |g| == 1 {
      GroupOfOne(g[0]);
      assert g == [g[0]];
    } else if |g| == 2 {
      GroupOfTwo(g[0], g[1]);
      assert g == [g[0], g[1]];
    } else {
      GroupOfThree(g[0], g[1], g[2], last);
      assert g == [g[0], g[1], g[2]];
    }
  }

  lemma GroupShape(g: Octets, i: int)
    requires 1 <= |g| <= 3 && 0 <= i < 4
    ensures Group(g)[i] == '=' <==> i > |g|
    ensures Group(g)[i] == '=' || ValueOf(Group(g)[i]).Some?
  {
  }

  lemma {:induction false} DecodeEncoded(data: Octets)
    ensures Decoded(Encoded(data)) == Some(data)
  {
    hide Group, DecodeGroup;
    if data == [] {
    } else if |data| <= 3 {
      GroupRoundTrip(data, true);
      assert Encoded(data)[..4] == Encoded(data);
      assert Decoded("") == Some([]) && data + [] == data;
    } else {
      GroupRoundTrip(data[..3], false);
      DecodeEncoded(data[3..]);
      EncodedLength(data[3..]);
      assert Encoded(data)[..4] == Group(data[..3]);
      assert Encoded(data)[4..] == Encoded(data[3..]);
      assert data == data[..3] + data[3..];
    }
  }

  /** Four symbols for each started group of three octets. */
  lemma {:induction false} EncodedLength(data: Octets)
    ensures |Encoded(data)| == 4 * ((|data| + 2) / 3)
  {
    hide Group;
    if |data| > 3 {
      EncodedLength(data[3..]);
    }
  }

  /** '=' only fills up the last group, one for each octet it lacks; everything else is in the alphabet. */
  lemma {:induction false} EncodedPadding(data: Octets, i: int)
    requires 0 <= i < |Encoded(data)|
    ensures Encoded(data)[i] == '=' <==> i >= |Encoded(data)| - (3 - |data| % 3) % 3
    ensures Encoded(data)[i] == '=' || ValueOf(Encoded(data)[i]).Some?
  {
    hide Group, ValueOf;
    EncodedLength(data);
    if |data| <= 3 {
      GroupShape(data, i);
    } else if i < 4 {
      EncodedLength(data[3..]);
      GroupShape(data[..3], i);
    } else {
      EncodedPadding(data[3..], i - 4);
    }
  }

  lemma {:induction false} DropsNothing(s: string)
    requires forall c <- s :: !LineBreak(c)
    ensures DropLineBreaks(s) == s
  {
    if s != "" {
      DropsNothing(s[1..]);
    }
  }

  lemma {:induction false} DropAppend(s: string, t: string)
    ensures DropLineBreaks(s + t) == DropLineBreaks(s) + DropLineBreaks(t)
  {
    hide LineBreak;
    if s == "" {
      assert s + t == t;
    } else {
      DropAppend(s[1..], t);
      assert (s + t)[1..] == s[1..] + t;
      var head := if LineBreak(s[0]) then "" else [s[0]];
      assert head + (DropLineBreaks(s[1..]) + DropLineBreaks(t)) == head + DropLineBreaks(s[1..]) + DropLineBreaks(t);
    }
  }

  lemma {:induction false} DropWrapped(s: string)
    requires forall c <- s :: !LineBreak(c)
    ensures DropLineBreaks(Wrapped(s)) == s
  {
    if |s| < LINE {
      DropsNothing(s);
    } else {
      DropWrapped(s[LINE..]);
      DropsNothing(s[..LINE]);
      DropAppend(s[..LINE] + CRLF, Wrapped(s[LINE..]));
      DropAppend(s[..LINE], CRLF);
      assert DropLineBreaks(CRLF) == "";
      assert s == s[..LINE] + s[LINE..];
    }
  }

  /** For every octet string, decoding what the encoder writes, line breaks dropped, gives it back. */
  lemma RoundTrip(data: Octets)
    ensures Decoded(DropLineBreaks(Wrapped(Encoded(data)))) == Some(data)
  {
    forall i | 0 <= i < |Encoded(data)|
      ensures !LineBreak(Encoded(data)[i])
    {
      EncodedPadding(data, i);
    }
    DropWrapped(Encoded(data));
    DecodeEncoded(data);
  }

  // ----- Lines -----

  /** The text cut at each CRLF. */
  function Lines(s: string): (lines: seq<string>)
    ensures lines != []
  {
    if |s| < 2 then [s]
    else if s[..2] == CRLF then [""] + Lines(s[2..])
    else
      var rest := Lines(s[1..]);
      [[s[0]] + rest[0]] + rest[1..]
  }

  lemma {:induction false} LinesOfBroken(line: string, rest: string)
    requires forall c <- line :: !LineBreak(c)
    ensures Lines(line + CRLF + rest) == [line] + Lines(rest)
  {
    var s := line + CRLF + rest;
    if line == "" {
      assert s[..2] == CRLF && s[2..] == rest;
    } else {
      LinesOfBroken(line[1..], rest);
      assert s[1..] == line[1..] + CRLF + rest;
      assert s[..2][0] == line[0] && line[0] in line;
      assert [line[0]] + line[1..] == line;
    }
  }

  lemma {:induction false} LinesOfUnbroken(line: string)
    requires forall c <- line :: !LineBreak(c)
    ensures Lines(line) == [line]
  {
    if |line| >= 2 {
      LinesOfUnbroken(line[1..]);
      assert line[..2][0] == line[0] && line[0] in line;
      assert [line[0]] + line[1..] == line;
    }
  }

  /** Every line has exactly 76 characters, except for a shorter, possibly empty, last one. */
  lemma {:induction false} LineLengths(s: string)
    requires forall c <- s :: !LineBreak(c)
    ensures var lines := Lines(Wrapped(s));
      && |lines| == |s| / LINE + 1
      && (forall i :: 0 <= i < |lines| - 1 ==> |lines[i]| == LINE)
      && |lines[|lines| - 1]| == |s| % LINE
  {
    if |s| < LINE {
      LinesOfUnbroken(s);
    } else {
      LineLengths(s[LINE..]);
      LinesOfBroken(s[..LINE], Wrapped(s[LINE..]));
    }
  }

  /** So with any data; the last line is empty exactly if the groups of three octets come out at a multiple of 19. */
  lemma EncodedLines(data: Octets)
    ensures var lines, groups := Lines(Wrapped(Encoded(data))), (|data| + 2) / 3;
      && |lines| == groups / 19 + 1
      && (forall i :: 0 <= i < |lines| - 1 ==> |lines[i]| == LINE)
      && |lines[|lines| - 1]| == 4 * (groups % 19)
      && forall line <- lines, c <- line :: !LineBreak(c)
  {
    var s := Encoded(data);
    forall c <- s ensures !LineBreak(c) {
      var i :| 0 <= i < |s| && s[i] == c;
      EncodedPadding(data, i);
    }
    EncodedLength(data);
    LineLengths(s);
    NoBreaksInLines(s);
  }

  lemma {:induction false} NoBreaksInLines(s: string)
    requires forall c <- s :: !LineBreak(c)
    ensures forall line <- Lines(Wrapped(s)), c <- line :: !LineBreak(c)
  {
    if |s| < LINE {
      LinesOfUnbroken(s);
    } else {
      NoBreaksInLines(s[LINE..]);
      LinesOfBroken(s[..LINE], Wrapped(s[LINE..]));
    }
  }

  // ----- The encoder as written -----

  const UPPER: string := "ABCDEFGHIJKLMNOPQRSTUVWXYZ"
  const LOWER: string := "abcdefghijklmnopqrstuvwxyz"
  const ALPHABET: string := UPPER + LOWER + "0123456789+/"

  lemma AlphabetIsTable1(i: Sextet)
    ensures |ALPHABET| == 64 && ALPHABET[i] == Symbol(i)
  {
  }

  function Lookup(value: Sextet): (c: char)
    ensures c == Symbol(value)
  {
    AlphabetIsTable1(value);
    ALPHABET[value]
  }

  lemma {:induction false} EncodedAppend(data: Octets, group: Octets)
    requires |data| % 3 == 0 && 1 <= |group| <= 3
    ensures Encoded(data + group) == Encoded(data) + Group(group)
  {
    hide Group;
    if data == [] {
      assert data + group == group;
    } else {
      EncodedAppend(data[3..], group);
      assert (data + group)[..3] == data[..3] && (data + group)[3..] == data[3..] + group;
      if |data| == 3 {
        assert data[3..] == [] && data[..3] == data;
      }
    }
  }

  function BreakAfter(n: nat): string {
    if n % LINE == 0 then CRLF else ""
  }

  lemma FullLine(n: nat)
    requires n < LINE
    ensures BreakAfter(n + 1) == if n + 1 == LINE then CRLF else ""
  {
  }

  lemma BreakAfterLine(n: nat)
    requires n >= LINE
    ensures BreakAfter(n) == BreakAfter(n - LINE)
  {
  }

  lemma WrappedLine(line: string, rest: string)
    requires |line| == LINE
    ensures Wrapped(line + rest) == line + CRLF + Wrapped(rest)
  {
  }

  lemma {:induction false} WrappedSnoc(s: string, c: char)
    ensures Wrapped(s + [c]) == Wrapped(s) + [c] + BreakAfter(|s| + 1)
  {
    hide BreakAfter;
    if |s| >= LINE {
      var line, rest := s[..LINE], s[LINE..];
      BreakAfterLine(|s| + 1);
      WrappedSnoc(rest, c);
      WrappedLine(line, rest + [c]);
      assert s + [c] == line + (rest + [c]);
    } else {
      FullLine(|s|);
      if |s| + 1 == LINE {
        WrappedLine(s + [c], "");
        assert s + [c] + "" == s + [c];
      }
    }
  }

  /** The four symbols for the next octets, of which at most three are left or taken. */
  method EncodeGroup(chunk: Octets) returns (c4: string)
    requires 1 <= |chunk| <= 3
    ensures c4 == Group(chunk)
  {
    hide Symbol, First, Second, Third, Fourth, Lookup;
    var b0, b1, b2 := chunk[0], if |chunk| > 1 then chunk[1] else 0, if |chunk| > 2 then chunk[2] else 0;
    c4 := [Lookup(First(b0)), Lookup(Second(b0, b1)), Lookup(Third(b1, b2)), Lookup(Fourth(b2))];
    if |chunk| < 3 {
      c4 := c4[3 := '='];
      if |chunk| < 2 {
        c4 := c4[2 := '='];
      }
    }
  }

  /** The line counter after `n` symbols. */
  function Column(n: nat): nat {
    n % LINE
  }

  lemma NextColumn(n: nat)
    ensures Column(n) + 1 >= LINE ==> Column(n + 1) == 0 && BreakAfter(n + 1) == CRLF
    ensures Column(n) + 1 < LINE ==> Column(n + 1) == Column(n) + 1 && BreakAfter(n + 1) == ""
  {
  }

  /** Appends symbols to `buf`, breaking the line whenever it is full; `written` are all symbols so far. */
  method WriteSymbols(before: string, column: nat, c4: string, ghost written: string)
    returns (buf: string, lineLen: nat)
    requires before == Wrapped(written) && column == Column(|written|)
    ensures buf == Wrapped(written + c4) && lineLen == Column(|written + c4|)
  {
    hide Wrapped, Column, BreakAfter;
    buf, lineLen := before, column;
    assert written + c4[..0] == written;
    for k := 0 to |c4|
      invariant buf == Wrapped(written + c4[..k]) && lineLen == Column(|written| + k)
    {
      WrappedSnoc(written + c4[..k], c4[k]);
      NextColumn(|written| + k);
      assert written + c4[..k + 1] == written + c4[..k] + [c4[k]];
      buf := buf + [c4[k]];
      lineLen := lineLen + 1;
      if lineLen >= 76 {
        buf := buf + "\r\n";
        lineLen := 0;
      }
    }
    assert c4[..|c4|] == c4;
  }

  method Base64Encode(data: Octets) returns (buf: string)
    ensures buf == Wrapped(Encoded(data))
  {
    assert Wrapped("") == "" && Encoded([]) == "" && Column(0) == 0;
    hide Group, Wrapped, Encoded, Column;
    buf := "";
    var lineLen := 0;
    ghost var written := "";
    var i := 0;
    while i < |data|
      invariant 0 <= i && (i < |data| ==> i % 3 == 0)
      invariant written == Encoded(if i < |data| then data[..i] else data)
      invariant buf == Wrapped(written) && lineLen == Column(|written|)
    {
      var c4 := EncodeGroup(if i + 3 <= |data| then data[i..i + 3] else data[i..]);
      AppendsGroup(data, i, c4);
      buf, lineLen := WriteSymbols(buf, lineLen, c4, written);
      written := written + c4;
      i := i + 3;
    }
  }

  lemma AppendsGroup(data: Octets, i: nat, c4: string)
    requires i < |data| && i % 3 == 0
    requires c4 == Group(if i + 3 <= |data| then data[i..i + 3] else data[i..])
    ensures Encoded(data[..i]) + c4 == Encoded(if i + 3 < |data| then data[..i + 3] else data)
  {
    hide Group;
    var group := if i + 3 <= |data| then data[i..i + 3] else data[i..];
    EncodedAppend(data[..i], group);
    assert data[..i] + group == if i + 3 < |data| then data[..i + 3] else data;
  }
}
