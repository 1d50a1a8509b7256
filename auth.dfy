/** The authentication gate of the error service: the configured token and the
    check of the `Authorization` header (server.js, lines 7 and 18-24). */
module Auth {
  import opened Wrappers

  /** Token used when the `AUTH_TOKEN` environment variable is unset or empty. */
  const DefaultToken: string := "SUPER_SECRET_KEY"

  /** `process.env.AUTH_TOKEN || 'SUPER_SECRET_KEY'`: JavaScript's `||` treats both
      an absent variable and the empty string as false, so the token is never empty. */
  function AuthToken(env: Option<string>): (token: string)
    ensures token != []
    ensures env.Some? && env.value != [] ==> token == env.value
    ensures env.None? || env.value == [] ==> token == DefaultToken
  {
    if env.Some? && env.value != [] then env.value else DefaultToken
  }

  /** JavaScript's `s.split(sep)` for a one-character separator: the maximal runs
      between separators, empty runs included, so there is always one field more
      than there are separators. */
  function Split(s: string, sep: char): (fields: seq<string>)
    ensures |fields| >= 1
    ensures forall i :: 0 <= i < |fields| ==> sep !in fields[i]
    decreases |s|
  {
    if s == [] then [[]]
    else
      var rest := Split(s[1..], sep);
      if s[0] == sep then [[]] + rest
      else [[s[0]] + rest[0]] + rest[1..]
  }

  /** The inverse of Split: the fields glued back together with the separator. */
  function Join(fields: seq<string>, sep: char): (s: string)
    requires |fields| >= 1
    decreases |fields|
  {
    if |fields| == 1 then fields[0] else fields[0] + [sep] + Join(fields[1..], sep)
  }

  /** The header check of the `authenticate` middleware: a request passes when it
      carries a non-empty `Authorization` header whose second space-separated
      field is exactly the token. The first field (the scheme word) is never looked at. */
  predicate Authenticate(authorization: Option<string>, token: string)
  {
    match authorization
    case None => false
    case Some(header) =>
      header != [] &&
      var fields := Split(header, ' ');
      |fields| >= 2 && fields[1] == token
  }

  /** Splitting and joining again gives back the original text. */
  lemma {:induction false} JoinSplit(s: string, sep: char)
    ensures Join(Split(s, sep), sep) == s
    decreases |s|
  {
    if s != [] {
      var rest := Split(s[1..], sep);
      JoinSplit(s[1..], sep);
      if s[0] == sep {
        assert Split(s, sep) == [[]] + rest;
        assert ([[]] + rest)[1..] == rest;
      } else {
        var fields := Split(s, sep);
        assert fields == [[s[0]] + rest[0]] + rest[1..];
        if |rest| == 1 {
          assert s == [s[0]] + s[1..];
        } else {
          assert fields[1..] == rest[1..];
          assert s == [s[0]] + s[1..];
        }
      }
    }
  }

  /** Text without the separator is a single field. */
  lemma {:induction false} SplitNoSeparator(a: string, sep: char)
    requires sep !in a
    ensures Split(a, sep) == [a]
    decreases |a|
  {
    if a != [] {
      SplitNoSeparator(a[1..], sep);
      assert [a[0]] + a[1..] == a;
    }
  }

  /** A separator-free prefix followed by the separator becomes the first field. */
  lemma {:induction false} SplitAfterField(a: string, sep: char, b: string)
    requires sep !in a
    ensures Split(a + [sep] + b, sep) == [a] + Split(b, sep)
    decreases |a|
  {
    if a == [] {
      assert a + [sep] + b == [sep] + b;
      assert ([sep] + b)[1..] == b;
    } else {
      SplitAfterField(a[1..], sep, b);
      var s := a + [sep] + b;
      assert s[0] == a[0] && s[1..] == a[1..] + [sep] + b;
      assert [a[0]] + a[1..] == a;
    }
  }

  /** Joining separator-free fields and splitting again gives back the fields. */
  lemma {:induction false} SplitJoin(fields: seq<string>, sep: char)
    requires |fields| >= 1
    requires forall i :: 0 <= i < |fields| ==> sep !in fields[i]
    ensures Split(Join(fields, sep), sep) == fields
    decreases |fields|
  {
    if |fields| == 1 {
      SplitNoSeparator(fields[0], sep);
    } else {
      SplitJoin(fields[1..], sep);
      SplitAfterField(fields[0], sep, Join(fields[1..], sep));
      assert [fields[0]] + fields[1..] == fields;
    }
  }

  /** A request without an `Authorization` header, or with an empty one, never
      passes, whatever the token. */
  lemma MissingHeaderRejected(token: string)
    ensures !Authenticate(None, token) && !Authenticate(Some([]), token)
  {
  }

  /** A header without a space has no second field and is always rejected. */
  lemma NoSpaceRejected(header: string, token: string)
    requires ' ' !in header
    ensures !Authenticate(Some(header), token)
  {
    SplitNoSeparator(header, ' ');
  }

  /** Any scheme word is accepted: a header made of a space-free word, a space,
      the token and then either nothing or further space-led text passes. */
  lemma AcceptsAnyScheme(scheme: string, token: string, tail: string)
    requires ' ' !in scheme && ' ' !in token
    requires tail == [] || tail[0] == ' '
    ensures Authenticate(Some(scheme + " " + token + tail), token)
  {
    var header := scheme + " " + token + tail;
    SplitAfterField(scheme, ' ', token + tail);
    assert header == scheme + [' '] + (token + tail);
    if tail == [] {
      SplitNoSeparator(token, ' ');
      assert token + tail == token;
    } else {
      SplitAfterField(token, ' ', tail[1..]);
      assert token + tail == token + [' '] + tail[1..];
    }
  }

  /** Conversely, every accepted header has that shape, and the token in it
      contains no space (so a token with a space can never be presented). */
  lemma AcceptedShape(header: string, token: string) returns (scheme: string, tail: string)
    requires Authenticate(Some(header), token)
    ensures header == scheme + " " + token + tail
    ensures ' ' !in scheme && ' ' !in token
    ensures tail == [] || tail[0] == ' '
  {
    var fields := Split(header, ' ');
    JoinSplit(header, ' ');
    scheme := fields[0];
    assert fields[1..][0] == token;
    if |fields| == 2 {
      tail := [];
      assert Join(fields[1..], ' ') == token;
    } else {
      tail := [' '] + Join(fields[2..], ' ');
      assert fields[1..][1..] == fields[2..];
      assert Join(fields[1..], ' ') == token + tail;
    }
  }

  /** With the configured token, a header whose second field is empty, such as
      `Bearer ` or a header with two spaces after the scheme, is always rejected. */
  lemma EmptyFieldRejected(header: string, env: Option<string>)
    requires |Split(header, ' ')| >= 2 && Split(header, ' ')[1] == []
    ensures !Authenticate(Some(header), AuthToken(env))
  {
  }

  /** The header `Bearer ` (scheme word, space, nothing) never passes. */
  lemma BearerWithoutTokenRejected(env: Option<string>)
    ensures !Authenticate(Some("Bearer "), AuthToken(env))
  {
  }

  /** The documented weak default: with `AUTH_TOKEN` unset, the header
      `Bearer SUPER_SECRET_KEY` is accepted. */
  lemma DefaultTokenAccepted()
    ensures Authenticate(Some("Bearer SUPER_SECRET_KEY"), AuthToken(None))
  {
    var scheme: string := "Bearer";
    assert forall i :: 0 <= i < |scheme| ==> scheme[i] != ' ';
    assert forall i :: 0 <= i < |DefaultToken| ==> DefaultToken[i] != ' ';
    AcceptsAnyScheme(scheme, DefaultToken, []);
    assert scheme + " " + DefaultToken + [] == "Bearer SUPER_SECRET_KEY";
  }
}
