/** Which IMAP search terms reach FTS5 as they were given. */
module SearchTerms {
  import opened Wrappers
  import opened SearchQuery

  /** Whether `s` has an odd number of double quotes. */
  function Flips(s: string): bool {
    s != "" && (s[0] == '"') != Flips(s[1..])
  }

  /** The position of the first space outside quotes, or |s|. */
  function BreakAt(s: string, inQuote: bool): (k: nat)
    ensures k <= |s| && (k < |s| ==> s[k] == ' ')
    decreases |s|
  {
    if s == "" || (s[0] == ' ' && !inQuote) then 0 else 1 + BreakAt(s[1..], inQuote != (s[0] == '"'))
  }

  lemma {:induction false} ScanAcross(p: string, rest: string, buf: string, inQuote: bool)
    requires BreakAt(p, inQuote) == |p|
    ensures Scan(p + rest, buf, inQuote) == Scan(rest, buf + p, inQuote != Flips(p))
    decreases |p|
  {
    if p == "" {
      assert p + rest == rest && buf + p == buf;
    } else {
      ScanAcross(p[1..], rest, buf + [p[0]], inQuote != (p[0] == '"'));
      assert (p + rest)[0] == p[0] && (p + rest)[1..] == p[1..] + rest;
      assert buf + [p[0]] + p[1..] == buf + p;
    }
  }

  lemma {:induction false} ScanToBreak(p: string, rest: string, buf: string, inQuote: bool)
    requires BreakAt(p, inQuote) < |p|
    ensures var k := BreakAt(p, inQuote);
      Scan(p + rest, buf, inQuote) == Token(buf + p[..k]) + Scan(p[k + 1..] + rest, "", false)
    decreases |p|
  {
    var k := BreakAt(p, inQuote);
    assert (p + rest)[0] == p[0] && (p + rest)[1..] == p[1..] + rest;
    if k == 0 {
      assert buf + p[..k] == buf;
    } else {
      ScanToBreak(p[1..], rest, buf + [p[0]], inQuote != (p[0] == '"'));
      assert buf + [p[0]] + p[1..][..k - 1] == buf + p[..k];
      assert p[1..][k..] == p[k + 1..];
    }
  }

  /** What has been read stays at the front of the first token. */
  lemma {:induction false} FirstToken(s: string, buf: string, inQuote: bool)
    requires buf != ""
    ensures Scan(s, buf, inQuote) != [] && buf <= Scan(s, buf, inQuote)[0]
    decreases |s|
  {
    if s == "" || (s[0] == ' ' && !inQuote) {
    } else {
      FirstToken(s[1..], buf + [s[0]], inQuote != (s[0] == '"'));
    }
  }

  lemma {:induction false} NoBreakWithoutSpace(s: string, inQuote: bool)
    requires ' ' !in s
    ensures BreakAt(s, inQuote) == |s|
    decreases |s|
  {
  }

  lemma {:induction false} BreakBeforeQuote(s: string, inQuote: bool)
    ensures BreakAt(s + "\"", inQuote) == if BreakAt(s, inQuote) < |s| then BreakAt(s, inQuote) else |s| + 1
    ensures Flips(s + "\"") == !Flips(s)
    decreases |s|
  {
    if s != "" {
      BreakBeforeQuote(s[1..], inQuote != (s[0] == '"'));
      assert (s + "\"")[1..] == s[1..] + "\"";
    }
  }

  /** Breaks and parity of a phrase once it is put in quotes. */
  lemma QuotedPiece(t: string)
    ensures var p := "\"" + t + "\"";
      && BreakAt(p, false) == (if BreakAt(t, true) < |t| then BreakAt(t, true) + 1 else |p|)
      && Flips(p) == Flips(t)
  {
    var p := "\"" + t + "\"";
    assert p[1..] == t + "\"";
    BreakBeforeQuote(t, true);
  }

  // ----- The condition -----

  /** A phrase may have spaces only between complete quotations; a word must not look like a quoted phrase. */
  predicate Fits(t: string) {
    if ' ' in t then BreakAt(t, true) == |t| else !QuotedPhrase(t)
  }

  /** Each term fits, and all but the last have an even number of quotes. */
  predicate Recoverable(terms: seq<string>) {
    terms == [] || (Fits(terms[0]) && (|terms| > 1 ==> !Flips(terms[0])) && Recoverable(terms[1..]))
  }

  function NonEmpty(terms: seq<string>): seq<string> {
    if terms == [] then [] else (if terms[0] == "" then [] else [terms[0]]) + NonEmpty(terms[1..])
  }

  /** The term list FTS5 sees for a list of TEXT terms. */
  function Received(terms: seq<string>): seq<string> {
    Contents(Tokens(Join(Pieces(terms))))
  }

  /** What follows the first piece in the query. */
  function Following(terms: seq<string>): string
    requires terms != []
  {
    if |terms| == 1 then "" else " " + Join(Pieces(terms[1..]))
  }

  lemma JoinedPieces(terms: seq<string>)
    requires terms != []
    ensures Join(Pieces(terms)) == Piece(terms[0]) + Following(terms)
  {
    assert Pieces(terms)[1..] == Pieces(terms[1..]);
  }

  /** A term that keeps to the rules is received as it is, and the next one starts afresh. */
  lemma GoodTerm(t: string, following: string)
    requires t != "" && Fits(t)
    requires following == "" || (!Flips(t) && following[0] == ' ')
    ensures Contents(Tokens(Piece(t) + following))
         == [t] + if following == "" then [] else Contents(Tokens(following[1..]))
  {
    var p := Piece(t);
    QuotedPiece(t);
    if ' ' !in t {
      NoBreakWithoutSpace(t, false);
    }
    ScanAcross(p, following, "", false);
    assert "" + p == p && Content(p) == t;
    if following != "" {
      assert Tokens(p + following) == [p] + Tokens(following[1..]);
      assert ([p] + Tokens(following[1..]))[1..] == Tokens(following[1..]);
    }
  }

  /** A term broken apart by a space of its own is not received. */
  lemma BrokenTerm(t: string, following: string)
    requires ' ' in t && BreakAt(t, true) < |t|
    ensures var got := Contents(Tokens(Piece(t) + following)); got != [] && got[0] != t
  {
    hide Scan, BreakAt, Flips, Content;
    var p, k := Piece(t), BreakAt(t, true);
    QuotedPiece(t);
    ScanToBreak(p, following, "", false);
    var token := "\"" + t[..k];
    assert "" + p[..k + 1] == token;
    BrokenContent(t, k);
  }

  lemma BrokenContent(t: string, k: nat)
    requires k < |t| && t[k] == ' '
    ensures Content("\"" + t[..k]) != t
  {
    var token := "\"" + t[..k];
    if token == t {
      AllQuotes(t, k);
      assert false;
    }
  }

  lemma {:induction false} AllQuotes(t: string, i: nat)
    requires i < |t| && t == "\"" + t[..|t| - 1]
    ensures t[i] == '"'
  {
    if i > 0 {
      AllQuotes(t, i - 1);
      assert t[i] == t[..|t| - 1][i - 1];
    }
  }

  /** A term whose odd quote swallows the space after it is not received. */
  lemma SwallowingTerm(t: string, following: string)
    requires t != "" && Flips(t) && following != "" && following[0] == ' '
    requires ' ' in t ==> BreakAt(t, true) == |t|
    ensures var got := Contents(Tokens(Piece(t) + following)); got != [] && got[0] != t
  {
    var p := Piece(t);
    QuotedPiece(t);
    if ' ' !in t {
      NoBreakWithoutSpace(t, false);
    }
    ScanAcross(p, following, "", false);
    assert "" + p == p;
    FirstToken(following[1..], p + " ", true);
    assert Scan(following, p, true) == Scan(following[1..], p + " ", true);
    SwallowedContent(t, Tokens(p + following)[0]);
  }

  lemma SwallowedContent(t: string, token: string)
    requires t != "" && Piece(t) + " " <= token
    ensures Content(token) != t
  {
    if ' ' !in t {
      assert token[|t|] == ' ';
    }
  }

  /** A word that comes with its own outer quotes loses them. */
  lemma StrippedTerm(t: string, following: string)
    requires ' ' !in t && QuotedPhrase(t)
    requires following == "" || (!Flips(t) && following[0] == ' ')
    ensures var got := Contents(Tokens(Piece(t) + following)); got != [] && got[0] != t
  {
    NoBreakWithoutSpace(t, false);
    ScanAcross(t, following, "", false);
    assert "" + t == t;
  }

  /** A term comes first among those received exactly if it fits and, unless it is the last, has its quotes in pairs. */
  lemma TermReceivedExactly(t: string, following: string)
    requires t != "" && (following == "" || following[0] == ' ')
    ensures var got := Contents(Tokens(Piece(t) + following));
      got != [] && (got[0] == t <==> Fits(t) && (following != "" ==> !Flips(t)))
  {
    hide Scan, Content, Contents, Piece, Flips;
    if Fits(t) && (following != "" ==> !Flips(t)) {
      GoodTerm(t, following);
    } else if ' ' in t && BreakAt(t, true) < |t| {
      BrokenTerm(t, following);
    } else if following != "" && Flips(t) {
      SwallowingTerm(t, following);
    } else {
      StrippedTerm(t, following);
    }
  }

  lemma SameTails(t: string, a: seq<string>, b: seq<string>)
    ensures [t] + a == [t] + b <==> a == b
  {
    assert ([t] + a)[1..] == a && ([t] + b)[1..] == b;
  }

  /** FTS5 receives exactly the non-empty terms, in order, if and only if the list is Recoverable. */
  lemma {:induction false} ReceivedExactly(terms: seq<string>)
    ensures Received(terms) == NonEmpty(terms) <==> Recoverable(terms)
    decreases |terms|
  {
    if terms != [] {
      var t, following := terms[0], Following(terms);
      JoinedPieces(terms);
      ReceivedExactly(terms[1..]);
      if |terms| > 1 {
        assert following[1..] == Join(Pieces(terms[1..]));
      }
      if t == "" {
        assert Piece(t) + following == following;
        assert |terms| > 1 ==> Tokens(following) == Tokens(following[1..]);
      } else if Fits(t) && (|terms| > 1 ==> !Flips(t)) {
        GoodTerm(t, following);
        assert NonEmpty(terms) == [t] + NonEmpty(terms[1..]);
        assert Received(terms) == [t] + Received(terms[1..]);
        SameTails(t, Received(terms[1..]), NonEmpty(terms[1..]));
      } else if ' ' in t && BreakAt(t, true) < |t| {
        BrokenTerm(t, following);
      } else if |terms| > 1 && Flips(t) {
        SwallowingTerm(t, following);
      } else {
        StrippedTerm(t, following);
      }
    }
  }

  /** In particular, terms without a double quote always arrive. */
  lemma {:induction false} QuoteFreeTermsArrive(terms: seq<string>)
    requires forall t <- terms :: '"' !in t
    ensures Received(terms) == NonEmpty(terms)
  {
    QuoteFreeRecoverable(terms);
    ReceivedExactly(terms);
  }

  lemma {:induction false} QuoteFreeRecoverable(terms: seq<string>)
    requires forall t <- terms :: '"' !in t
    ensures Recoverable(terms)
  {
    if terms != [] {
      QuoteFree(terms[0], true);
      QuoteFreeRecoverable(terms[1..]);
    }
  }

  lemma {:induction false} QuoteFree(t: string, inQuote: bool)
    requires '"' !in t && inQuote
    ensures BreakAt(t, inQuote) == |t| && !Flips(t)
    decreases |t|
  {
    if t != "" {
      assert t[0] in t;
      QuoteFree(t[1..], inQuote);
    }
  }
}
