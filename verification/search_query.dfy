/** From IMAP search terms to an FTS5 query (pkg/imap/mailbox.go, pkg/storage/search.go). */
module SearchQuery {
  import opened Wrappers

  function Join(parts: seq<string>): string {
    if parts == [] then "" else if |parts| == 1 then parts[0] else parts[0] + " " + Join(parts[1..])
  }

  // ----- The code -----

  function EscapeQuotes(s: string): string {
    if s == "" then "" else (if s[0] == '"' then "\"\"" else [s[0]]) + EscapeQuotes(s[1..])
  }

  function Token(buf: string): seq<string> {
    if buf == "" then [] else [buf]
  }

  /** The tokens of what is left of a query, with `buf` read and `inQuote` set so far. */
  function Scan(q: string, buf: string, inQuote: bool): seq<string>
    decreases |q|
  {
    if q == "" then Token(buf)
    else if q[0] == '"' then Scan(q[1..], buf + [q[0]], !inQuote)
    else if q[0] == ' ' && !inQuote then Token(buf) + Scan(q[1..], "", false)
    else Scan(q[1..], buf + [q[0]], inQuote)
  }

  function Tokens(q: string): seq<string> {
    Scan(q, "", false)
  }

  predicate QuotedPhrase(token: string) {
    |token| >= 2 && token[0] == '"' && token[|token| - 1] == '"'
  }

  /** What the term is about: the token, less a pair of outer quotes. */
  function Content(token: string): string {
    if QuotedPhrase(token) then token[1..|token| - 1] else token
  }

  function Contents(tokens: seq<string>): seq<string> {
    if tokens == [] then [] else [Content(tokens[0])] + Contents(tokens[1..])
  }

  function Literal(content: string): string {
    "\"" + EscapeQuotes(content) + "\""
  }

  function Literals(contents: seq<string>): (literals: seq<string>)
    ensures |literals| == |contents| && forall i :: 0 <= i < |contents| ==> literals[i] == Literal(contents[i])
  {
    seq(|contents|, i requires 0 <= i < |contents| => Literal(contents[i]))
  }

  method TokenizeQuery(q: string) returns (terms: seq<string>)
    ensures terms == Tokens(q)
  {
    terms := [];
    var buf, inQuote := "", false;
    for i := 0 to |q|
      invariant terms + Scan(q[i..], buf, inQuote) == Tokens(q)
    {
      var r := q[i];
      assert q[i..][0] == r && q[i..][1..] == q[i + 1..];
      if r == '"' {
        inQuote := !inQuote;
        buf := buf + [r];
      } else if r == ' ' && !inQuote {
        if buf != "" {
          terms := terms + [buf];
          buf := "";
        }
      } else {
        buf := buf + [r];
      }
    }
    if buf != "" {
      terms := terms + [buf];
    }
  }

  lemma {:induction false} ContentsSnoc(tokens: seq<string>, token: string)
    ensures Contents(tokens + [token]) == Contents(tokens) + [Content(token)]
  {
    if tokens != [] {
      ContentsSnoc(tokens[1..], token);
      assert (tokens + [token])[1..] == tokens[1..] + [token];
    }
  }

  method Fts5Query(q: string) returns (query: string)
    ensures query == Join(Literals(Contents(Tokens(q))))
  {
    if q == "" {
      return q;
    }
    var terms: seq<string> := [];
    var tokens := TokenizeQuery(q);
    for i := 0 to |tokens|
      invariant terms == Literals(Contents(tokens[..i]))
    {
      var token := tokens[i];
      ContentsSnoc(tokens[..i], token);
      assert tokens[..i + 1] == tokens[..i] + [token];
      if |token| >= 2 && token[0] == '"' && token[|token| - 1] == '"' {
        var inner := token[1..|token| - 1];
        terms := terms + ["\"" + EscapeQuotes(inner) + "\""];
      } else {
        terms := terms + ["\"" + EscapeQuotes(token) + "\""];
      }
    }
    assert tokens[..|tokens|] == tokens;
    query := Join(terms);
  }

  /** A TEXT term as SearchMessages passes it on: phrases get quotes around them. */
  function Piece(term: string): string {
    if ' ' in term then "\"" + term + "\"" else term
  }

  function Pieces(terms: seq<string>): seq<string> {
    seq(|terms|, i requires 0 <= i < |terms| => Piece(terms[i]))
  }

  method BuildQuery(text: seq<string>) returns (query: string)
    ensures query == Join(Pieces(text))
  {
    var terms: seq<string> := [];
    for i := 0 to |text|
      invariant terms == Pieces(text[..i])
    {
      if ' ' in text[i] {
        terms := terms + ["\"" + text[i] + "\""];
      } else {
        terms := terms + [text[i]];
      }
    }
    assert text[..|text|] == text;
    query := Join(terms);
  }

  // ----- How FTS5 reads a query: string literals with doubled quotes, one space apart -----

  /** The rest of a literal after its opening quote, and what follows it. */
  function ReadLiteral(s: string): (r: Option<(string, string)>)
    ensures r.Some? ==> |r.value.1| < |s|
  {
    if s == "" then None
    else if s[0] != '"' then Prepended(s[0], ReadLiteral(s[1..]))
    else if |s| >= 2 && s[1] == '"' then Prepended('"', ReadLiteral(s[2..]))
    else Some(("", s[1..]))
  }

  function ReadQuery(s: string): Option<seq<string>>
    decreases |s|
  {
    if s == "" then Some([])
    else if s[0] != '"' then None
    else
      match ReadLiteral(s[1..])
      case None => None
      case Some((content, rest)) =>
        if rest == "" then Some([content])
        else if rest[0] != ' ' || rest == " " then None
        else
          match ReadQuery(rest[1..])
          case None => None
          case Some(contents) => Some([content] + contents)
  }

  lemma {:induction false} ReadsLiteral(content: string, rest: string)
    requires rest == "" || rest[0] != '"'
    ensures ReadLiteral(EscapeQuotes(content) + "\"" + rest) == Some((content, rest))
  {
    var s := EscapeQuotes(content) + "\"" + rest;
    if content == "" {
      assert s[1..] == rest;
    } else {
      ReadsLiteral(content[1..], rest);
      var tail := EscapeQuotes(content[1..]) + "\"" + rest;
      assert content == [content[0]] + content[1..];
      if content[0] == '"' {
        assert s == "\"\"" + tail && s[2..] == tail;
      } else {
        assert s[1..] == tail;
      }
    }
  }

  lemma {:induction false} ReadsLiterals(contents: seq<string>)
    ensures ReadQuery(Join(Literals(contents))) == Some(contents)
  {
    hide ReadLiteral, EscapeQuotes;
    if contents != [] {
      var first := EscapeQuotes(contents[0]) + "\"";
      assert Literals(contents)[1..] == Literals(contents[1..]);
      if |contents| == 1 {
        ReadsLiteral(contents[0], "");
        assert Join(Literals(contents))[1..] == first + "";
        assert contents == [contents[0]];
      } else {
        var rest := Join(Literals(contents[1..]));
        ReadsLiterals(contents[1..]);
        ReadsLiteral(contents[0], " " + rest);
        assert Join(Literals(contents))[1..] == first + (" " + rest);
        assert (" " + rest)[1..] == rest && rest != "";
        assert contents == [contents[0]] + contents[1..];
      }
    }
  }

  /** For every user query, FTS5 reads the result as well-formed literals: the tokens without their outer quotes. */
  lemma QueryIsWellFormed(q: string)
    ensures ReadQuery(Join(Literals(Contents(Tokens(q))))) == Some(Contents(Tokens(q)))
  {
    ReadsLiterals(Contents(Tokens(q)));
  }
}
