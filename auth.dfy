/** The authentication side of the server: taking the token out of the
    Authorization header, the password hash and the signed token (both
    library code, given here as an injected `Crypto` value), and the
    middleware that turns a header into the caller's claims. */
module Auth {
  import opened Schema

  /** `s.split(sep)` in JavaScript: the pieces between separators, in order;
      there is always at least one (the empty string splits to `[""]`). */
  function Split(s: string, sep: char): (parts: seq<string>)
    ensures |parts| >= 1
    decreases |s|
  {
    if s == [] then [""]
    else
      var rest := Split(s[1..], sep);
      if s[0] == sep then [""] + rest else [[s[0]] + rest[0]] + rest[1..]
  }

  /** `parts.join(sep)`, the inverse of `Split`. */
  function Join(parts: seq<string>, sep: char): (s: string)
    decreases |parts|
  {
    if parts == [] then ""
    else if |parts| == 1 then parts[0]
    else parts[0] + [sep] + Join(parts[1..], sep)
  }

  /** Splitting loses nothing: the pieces joined back give the input. */
  lemma {:induction false} JoinSplit(s: string, sep: char)
    ensures Join(Split(s, sep), sep) == s
    decreases |s|
  {
    if s != [] {
      var rest := Split(s[1..], sep);
      JoinSplit(s[1..], sep);
      if s[0] == sep {
        assert ([""] + rest)[1..] == rest;
      } else if |rest| > 1 {
        assert ([[s[0]] + rest[0]] + rest[1..])[1..] == rest[1..];
        assert s == [s[0]] + s[1..];
      }
    }
  }

  /** No piece of a split contains the separator. */
  lemma {:induction false} SplitPiecesLackSep(s: string, sep: char)
    ensures forall i :: 0 <= i < |Split(s, sep)| ==> sep !in Split(s, sep)[i]
    decreases |s|
  {
    if s != [] {
      SplitPiecesLackSep(s[1..], sep);
      var rest := Split(s[1..], sep);
      if s[0] != sep {
        assert forall i :: 1 <= i < |Split(s, sep)| ==> Split(s, sep)[i] == rest[i];
      } else {
        assert forall i :: 1 <= i < |Split(s, sep)| ==> Split(s, sep)[i] == rest[i - 1];
      }
    }
  }

  /** A string without the separator splits to itself alone. */
  lemma {:induction false} SplitWord(a: string, sep: char)
    requires sep !in a
    ensures Split(a, sep) == [a]
    decreases |a|
  {
    if a != [] {
      SplitWord(a[1..], sep);
      assert a == [a[0]] + a[1..];
    }
  }

  /** A leading word followed by the separator becomes the first piece. */
  lemma {:induction false} SplitAfterWord(a: string, sep: char, rest: string)
    requires sep !in a
    ensures Split(a + [sep] + rest, sep) == [a] + Split(rest, sep)
    decreases |a|
  {
    var s := a + [sep] + rest;
    if a == [] {
      assert s[1..] == rest;
    } else {
      assert s[1..] == a[1..] + [sep] + rest;
      SplitAfterWord(a[1..], sep, rest);
      assert a == [a[0]] + a[1..];
    }
  }

  /** `authHeader && authHeader.split(' ')[1]`, refused with 401 when that is
      missing or empty: an absent or empty header, a header without a space, or
      a second word that is empty. The first word (normally "Bearer") is not
      checked. */
  function BearerToken(header: Option<string>): (r: Result<string>)
    ensures r.Err? ==> r.error == TokenRequired
    ensures header.None? || header == Some("") ==> r.Err?
    ensures r.Ok? ==> r.value != ""
  {
    if header.None? || header.value == "" then Err(TokenRequired)
    else
      var parts := Split(header.value, ' ');
      if |parts| < 2 || parts[1] == "" then Err(TokenRequired) else Ok(parts[1])
  }

  /** A header made of a first word, a space, a non-empty second word and then
      nothing or another space yields exactly that second word. */
  lemma BearerTokenOfHeader(scheme: string, token: string, rest: string)
    requires ' ' !in scheme && ' ' !in token && token != ""
    requires rest == "" || rest[0] == ' '
    ensures BearerToken(Some(scheme + " " + token + rest)) == Ok(token)
  {
    var h := scheme + " " + token + rest;
    assert h == scheme + [' '] + (token + rest);
    SplitAfterWord(scheme, ' ', token + rest);
    if rest == "" {
      assert token + rest == token;
      SplitWord(token, ' ');
      assert Split(h, ' ') == [scheme, token];
    } else {
      assert token + rest == token + [' '] + rest[1..];
      SplitAfterWord(token, ' ', rest[1..]);
    }
  }

  /** Conversely, an extracted token is the second space-separated word of the
      header: it has no space, and what follows it is nothing or a space. */
  lemma BearerTokenIsSecondWord(h: string) returns (scheme: string, rest: string)
    requires BearerToken(Some(h)).Ok?
    ensures var token := BearerToken(Some(h)).value;
      && h == scheme + " " + token + rest
      && ' ' !in scheme && ' ' !in token && token != ""
      && (rest == "" || rest[0] == ' ')
  {
    var parts := Split(h, ' ');
    JoinSplit(h, ' ');
    SplitPiecesLackSep(h, ' ');
    assert ' ' !in parts[0] && ' ' !in parts[1];
    scheme := parts[0];
    var tail := parts[1..];
    assert Join(parts, ' ') == scheme + " " + Join(tail, ' ');
    if |parts| == 2 {
      rest := "";
      assert Join(tail, ' ') == parts[1];
    } else {
      rest := " " + Join(parts[2..], ' ');
      assert tail[1..] == parts[2..];
      assert Join(tail, ' ') == parts[1] + rest;
    }
  }

  /** The libraries the server calls for passwords and tokens, which this model
      does not look into: bcrypt's hash, jsonwebtoken's sign and verify (with the
      server's secret fixed inside them). */
  datatype Crypto = Crypto(hash: string -> string, sign: Claims -> string, verify: string -> Option<Claims>)

  /** `bcrypt.compare(password, digest)`. */
  predicate Matches(c: Crypto, password: string, digest: string)
  {
    c.hash(password) == digest
  }

  /** What the server relies on of the token library: a token it signed verifies
      to the signed payload, and is a single non-empty word (a JWT is three
      base64url parts joined by dots). */
  ghost predicate Sound(c: Crypto)
  {
    forall p :: c.verify(c.sign(p)) == Some(p) && c.sign(p) != "" && ' ' !in c.sign(p)
  }

  /** `authenticateToken`: 401 without a token, 403 when the token does not
      verify, otherwise the verified payload becomes `req.user`. */
  function Authenticate(header: Option<string>, c: Crypto): (r: Result<Claims>)
    ensures BearerToken(header).Err? ==> r == Err(TokenRequired)
    ensures BearerToken(header).Ok? && c.verify(BearerToken(header).value).None? ==> r == Err(InvalidToken)
    ensures r.Ok? ==> BearerToken(header).Ok? && c.verify(BearerToken(header).value) == Some(r.value)
    ensures BearerToken(header).Ok? && c.verify(BearerToken(header).value).Some? ==>
              r == Ok(c.verify(BearerToken(header).value).value)
  {
    match BearerToken(header)
    case Err(e) => Err(e)
    case Ok(token) =>
      match c.verify(token)
      case None => Err(InvalidToken)
      case Some(claims) => Ok(claims)
  }

  /** The token and public record answered by register and login for user `u`. */
  function Issue(c: Crypto, u: User): AuthResponse
  {
    AuthResponse(c.sign(Claims(u.id, u.username)), Public(u))
  }

  /** A token the server issued, sent back as the client sends it
      (`Bearer <token>`), authenticates as the payload it was signed with. */
  lemma IssuedTokenAuthenticates(c: Crypto, p: Claims)
    requires Sound(c)
    ensures Authenticate(Some("Bearer " + c.sign(p)), c) == Ok(p)
  {
    var token := c.sign(p);
    BearerTokenOfHeader("Bearer", token, "");
    assert "Bearer " + token == "Bearer" + " " + token + "";
  }
}
