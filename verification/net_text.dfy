/** Numbers and addresses as text: strconv.Atoi, and net.ParseIP as far as dotted quads go. */
module NetText {
  import opened Wrappers

  // ----- Decimal numbers -----

  predicate IsDigit(c: char) {
    '0' <= c <= '9'
  }

  predicate IsNumber(s: string) {
    s != "" && forall c <- s :: IsDigit(c)
  }

  function NumberOf(s: string): nat
    requires forall c <- s :: IsDigit(c)
  {
    if s == "" then 0
    else
      assert IsDigit(s[|s| - 1]);
      NumberOf(s[..|s| - 1]) * 10 + (s[|s| - 1] - '0') as int
  }

  /** Without leading zeros. */
  function Decimal(n: nat): (s: string)
    ensures IsNumber(s)
  {
    var last := ['0' + (n % 10) as char];
    if n < 10 then last else Decimal(n / 10) + last
  }

  predicate IsCanonical(s: string) {
    IsNumber(s) && (|s| > 1 ==> s[0] != '0')
  }

  lemma {:induction false} DecimalReads(n: nat)
    ensures IsCanonical(Decimal(n)) && NumberOf(Decimal(n)) == n
    ensures n > 0 ==> Decimal(n)[0] != '0'
  {
    if n >= 10 {
      DecimalReads(n / 10);
      assert Decimal(n)[..|Decimal(n)| - 1] == Decimal(n / 10);
    }
  }

  lemma {:induction false} CanonicalPositive(s: string)
    requires IsNumber(s) && s[0] != '0'
    ensures NumberOf(s) > 0
  {
    assert IsDigit(s[0]);
    if |s| > 1 {
      CanonicalPositive(s[..|s| - 1]);
    }
  }

  lemma {:induction false} DecimalOf(s: string)
    requires IsCanonical(s)
    ensures Decimal(NumberOf(s)) == s
  {
    var init, last := s[..|s| - 1], s[|s| - 1];
    assert s == init + [last];
    if |s| > 1 {
      assert IsDigit(last) && IsNumber(init);
      CanonicalPositive(init);
      DecimalOf(init);
    } else {
      assert init == "";
    }
  }

  const MAX_INT64 := 0x7FFF_FFFF_FFFF_FFFF

  /** strconv.Atoi: an optional sign, digits, and nothing out of range. */
  function Atoi(s: string): Option<int> {
    var digits := if s != "" && s[0] in "+-" then s[1..] else s;
    if !IsNumber(digits) then None
    else
      var n: int := NumberOf(digits);
      if s[0] == '-' then (if n <= MAX_INT64 + 1 then Some(-n) else None)
      else if n <= MAX_INT64 then Some(n) else None
  }

  lemma AtoiDecimal(n: nat)
    requires n <= MAX_INT64
    ensures Atoi(Decimal(n)) == Some(n)
  {
    DecimalReads(n);
    assert IsDigit(Decimal(n)[0]);
  }

  lemma {:induction false} ZerosFirst(s: string, zeros: nat)
    requires IsNumber(s)
    ensures var padded := seq(zeros, i => '0') + s; IsNumber(padded) && NumberOf(padded) == NumberOf(s)
    decreases |s|
  {
    var padded := seq(zeros, i => '0') + s;
    assert padded[..|padded| - 1] == seq(zeros, i => '0') + s[..|s| - 1];
    if |s| == 1 {
      OnlyZeros(zeros);
      assert seq(zeros, i => '0') + s[..0] == seq(zeros, i => '0');
    } else {
      ZerosFirst(s[..|s| - 1], zeros);
    }
  }

  lemma {:induction false} OnlyZeros(zeros: nat)
    ensures NumberOf(seq(zeros, i => '0')) == 0
  {
    if zeros > 0 {
      assert seq(zeros, i => '0')[..zeros - 1] == seq(zeros - 1, i => '0');
      OnlyZeros(zeros - 1);
    }
  }

  /** Signs and leading zeros are read; what is too large for 64 bits is not. */
  lemma AtoiReads(n: nat, zeros: nat)
    ensures var digits := seq(zeros, i => '0') + Decimal(n);
      && Atoi(digits) == Atoi("+" + digits) == (if n <= MAX_INT64 then Some(n) else None)
      && (n <= MAX_INT64 + 1 ==> Atoi("-" + digits).Some? && Atoi("-" + digits).value + n == 0)
      && (n > MAX_INT64 + 1 ==> Atoi("-" + digits).None?)
  {
    var digits := seq(zeros, i => '0') + Decimal(n);
    DecimalReads(n);
    ZerosFirst(Decimal(n), zeros);
    assert IsDigit(digits[0]);
    assert ("+" + digits)[1..] == digits && ("-" + digits)[1..] == digits;
  }

  /** Nothing else is: what Atoi reads is digits after at most one sign. */
  lemma AtoiReadsNumbers(s: string)
    requires Atoi(s).Some?
    ensures IsNumber(s) || (s != "" && s[0] in "+-" && IsNumber(s[1..]))
  {
  }

  // ----- Dotted quads -----

  function Dotted(pieces: seq<string>): string
    requires pieces != []
  {
    if |pieces| == 1 then pieces[0] else pieces[0] + "." + Dotted(pieces[1..])
  }

  lemma {:induction false} DottedSplit(s: string)
    ensures Dotted(Split(s, '.')) == s
  {
    if s != "" {
      DottedSplit(s[1..]);
      var rest := Split(s[1..], '.');
      assert s == [s[0]] + s[1..];
      if s[0] == '.' {
        assert Split(s, '.')[1..] == rest;
      } else {
        assert Split(s, '.')[1..] == rest[1..];
      }
    }
  }

  lemma {:induction false} PieceAlone(p: string)
    requires '.' !in p
    ensures Split(p, '.') == [p]
  {
    if p != "" {
      assert p == [p[0]] + p[1..] && p[0] in p;
      PieceAlone(p[1..]);
    }
  }

  lemma {:induction false} PieceFirst(p: string, s: string)
    requires '.' !in p
    ensures Split(p + "." + s, '.') == [p] + Split(s, '.')
  {
    var all := p + "." + s;
    if p == "" {
      assert all[1..] == s;
    } else {
      assert p[0] in p && all[1..] == p[1..] + "." + s && p == [p[0]] + p[1..];
      PieceFirst(p[1..], s);
    }
  }

  /** One field of a quad: no leading zero, at most 255. */
  function Field(s: string): Option<Octet> {
    if IsCanonical(s) && NumberOf(s) < 256 then Some(NumberOf(s)) else None
  }

  lemma FieldExactly(s: string, n: Octet)
    ensures Field(s) == Some(n) <==> s == Decimal(n)
  {
    DecimalReads(n);
    if IsCanonical(s) {
      DecimalOf(s);
    }
  }

  function Quad(s: string): Option<seq<Octet>> {
    var p := Split(s, '.');
    if |p| != 4 || Field(p[0]).None? || Field(p[1]).None? || Field(p[2]).None? || Field(p[3]).None? then None
    else Some([Field(p[0]).value, Field(p[1]).value, Field(p[2]).value, Field(p[3]).value])
  }

  function ShowQuad(o: seq<Octet>): string
    requires |o| == 4
  {
    Decimal(o[0]) + "." + (Decimal(o[1]) + "." + (Decimal(o[2]) + "." + Decimal(o[3])))
  }

  lemma ShowQuadSplit(o: seq<Octet>)
    requires |o| == 4
    ensures Split(ShowQuad(o), '.') == [Decimal(o[0]), Decimal(o[1]), Decimal(o[2]), Decimal(o[3])]
  {
    hide Decimal, Split;
    forall i | 0 <= i < 4 ensures '.' !in Decimal(o[i]) {
      assert IsNumber(Decimal(o[i]));
    }
    var d3 := Decimal(o[3]);
    var d2 := Decimal(o[2]) + "." + d3;
    var d1 := Decimal(o[1]) + "." + d2;
    PieceAlone(d3);
    PieceFirst(Decimal(o[2]), d3);
    PieceFirst(Decimal(o[1]), d2);
    PieceFirst(Decimal(o[0]), d1);
  }

  lemma ShowQuadCharacters(o: seq<Octet>)
    requires |o| == 4
    ensures forall c <- ShowQuad(o) :: IsDigit(c) || c == '.'
  {
    hide Decimal;
    assert forall i :: 0 <= i < 4 ==> IsNumber(Decimal(o[i]));
  }

  /** A text reads as a quad exactly if it is that quad's decimal form (qnum of section 12 of RFC 7208). */
  lemma QuadExactly(s: string, o: seq<Octet>)
    requires |o| == 4
    ensures Quad(s) == Some(o) <==> s == ShowQuad(o)
  {
    hide Decimal, Field, ShowQuad;
    ShowQuadSplit(o);
    var p := Split(s, '.');
    if |p| == 4 {
      forall i | 0 <= i < 4 ensures Field(p[i]) == Some(o[i]) <==> p[i] == Decimal(o[i]) {
        FieldExactly(p[i], o[i]);
      }
    }
    forall i | 0 <= i < 4 ensures Field(Decimal(o[i])) == Some(o[i]) {
      FieldExactly(Decimal(o[i]), o[i]);
    }
    assert o == [o[0], o[1], o[2], o[3]];
    if Quad(s) == Some(o) {
      assert p == Split(ShowQuad(o), '.');
      DottedSplit(s);
      DottedSplit(ShowQuad(o));
    }
  }

  /** The first of the characters by which net.ParseIP tells the address families apart. */
  function FirstMark(s: string): char {
    if s == "" then ' ' else if s[0] in ".:%" then s[0] else FirstMark(s[1..])
  }

  lemma {:induction false} QuadMark(s: string)
    requires forall c <- s :: IsDigit(c) || c == '.'
    ensures '.' in s ==> FirstMark(s) == '.'
  {
    if s != "" {
      assert s[0] in s && s == [s[0]] + s[1..];
      QuadMark(s[1..]);
    }
  }
}
