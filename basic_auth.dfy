/** HTTP Basic authentication: an Authorization header "Basic <b64>" whose
    payload is the standard Base64 of the UTF-8 of "<email>:<password>"
    (section 2 of RFC 7617), resolved to the first user with that email
    whose password validates. Each stage answers `None` on bad input. */
module BasicAuth {
  import opened Common
  import opened Seqs
  import Base64
  import Utf8

  /** `w` is the text of `s` up to, not including, its first space. */
  predicate IsFirstWord(w: string, s: string)
  {
    w <= s && ' ' !in w && (|w| == |s| || s[|w|] == ' ')
  }

  /** The first word of a string is unique. */
  lemma FirstWordUnique(w: string, v: string, s: string)
    requires IsFirstWord(w, s) && IsFirstWord(v, s)
    ensures w == v
  {
    assert w == s[..|w|] && v == s[..|v|];
  }

  /** After "Basic ", `split(' ')[1]` is the first word of the rest. */
  lemma SplitAfterScheme(h: string)
    requires "Basic " <= h
    ensures |Split(h, ' ')| >= 2 && IsFirstWord(Split(h, ' ')[1], h[6..])
  {
    assert h[..5] == "Basic" && h[5] == ' ';
    assert IndexOf(h, ' ') == Some(5) by {
      assert forall i :: 0 <= i < 5 ==> h[i] != ' ';
    }
    var rest := h[6..];
    assert Split(h, ' ') == [h[..5]] + Split(rest, ' ');
    SplitHead(rest, ' ');
    if ' ' in rest {
      var k := IndexOf(rest, ' ').value;
      assert rest[..k] <= rest;
    }
  }

  /** The Base64 part of a Basic Authorization header: `None` unless the
      header is a string beginning with exactly "Basic " (the scheme name
      is compared case-sensitively), otherwise the text between the first
      and the second space. */
  function ExtractBase64AuthorizationHeader(authorizationHeader: Input): (r: Option<string>)
    ensures r.Some? <==> authorizationHeader.Text? && "Basic " <= authorizationHeader.text
    ensures r.Some? ==> IsFirstWord(r.value, authorizationHeader.text[6..])
  {
    if !authorizationHeader.Text? then None
    else if !("Basic " <= authorizationHeader.text) then None
    else
      var h := authorizationHeader.text;
      SplitAfterScheme(h);
      Some(Split(h, ' ')[1])
  }

  /** For a payload without spaces the extracted part is the payload. */
  lemma ExtractBase64Exact(s: string)
    requires ' ' !in s
    ensures ExtractBase64AuthorizationHeader(Text("Basic " + s)) == Some(s)
  {
    var h := "Basic " + s;
    assert "Basic " <= h && h[6..] == s;
    var r := ExtractBase64AuthorizationHeader(Text(h));
    assert IsFirstWord(s, s);
    FirstWordUnique(r.value, s, s);
  }

  /** Other schemes, and other spellings of this one, are refused. */
  lemma ExtractBase64Refuses()
    ensures ExtractBase64AuthorizationHeader(Text("Bearer xyz")).None?
    ensures ExtractBase64AuthorizationHeader(Text("basic xyz")).None?
    ensures ExtractBase64AuthorizationHeader(Text("Basic")).None?
    ensures ExtractBase64AuthorizationHeader(Absent).None?
    ensures ExtractBase64AuthorizationHeader(NotText).None?
  {
    assert "Bearer xyz"[1] != "Basic "[1];
    assert "basic xyz"[0] != "Basic "[0];
  }

  /** Every character is ASCII. */
  predicate IsAscii(s: string)
  {
    forall i :: 0 <= i < |s| ==> s[i] as int < 0x80
  }

  /** The decoded payload: `None` for a non-string or a payload that is not
      Base64. The exception handler only catches Base64 errors, so a
      payload with a non-ASCII character raises `ValueError` and one whose
      octets are not UTF-8 raises `UnicodeDecodeError`. */
  function DecodeBase64AuthorizationHeader(base64AuthorizationHeader: Input): (r: Outcome<Option<string>>)
    ensures !base64AuthorizationHeader.Text? ==> r == Returned(None)
    ensures base64AuthorizationHeader.Text? && !IsAscii(base64AuthorizationHeader.text) ==>
      r == Raised(ValueError)
    ensures base64AuthorizationHeader.Text? && IsAscii(base64AuthorizationHeader.text) ==>
      (r == Returned(None) <==> Base64.Decode(base64AuthorizationHeader.text).None?)
    ensures (base64AuthorizationHeader.Text? && IsAscii(base64AuthorizationHeader.text) &&
             Base64.Decode(base64AuthorizationHeader.text).Some?) ==>
      (r == Raised(UnicodeDecodeError) <==>
       Utf8.Decode(Base64.Decode(base64AuthorizationHeader.text).value).None?)
    ensures r.Raised? ==> r.exc == UnicodeDecodeError || r.exc == ValueError
  {
    if !base64AuthorizationHeader.Text? then Returned(None)
    else if !IsAscii(base64AuthorizationHeader.text) then Raised(ValueError)
    else
      match Base64.Decode(base64AuthorizationHeader.text)
      case None => Returned(None)
      case Some(octets) =>
        match Utf8.Decode(octets)
        case None => Raised(UnicodeDecodeError)
        case Some(text) => Returned(Some(text))
  }

  /** A payload decodes to a text exactly when it is the Base64 of that
      text's UTF-8; in particular decoding the encoding of any text gives it back. */
  lemma DecodeBase64Iff(s: string, t: string)
    ensures DecodeBase64AuthorizationHeader(Text(s)) == Returned(Some(t)) <==>
            s == Base64.Encode(Utf8.Encode(t))
  {
    Utf8.DecodeIffEncoding(Utf8.Encode(t), t);
    Base64.DecodeIffEncoding(s, Utf8.Encode(t));
    if s == Base64.Encode(Utf8.Encode(t)) {
      EncodingIsAscii(Utf8.Encode(t), s);
    }
    if DecodeBase64AuthorizationHeader(Text(s)) == Returned(Some(t)) {
      var octets := Base64.Decode(s).value;
      Utf8.DecodeIffEncoding(octets, t);
    }
  }

  /** The email and password of "email:password", split at the first colon;
      `(None, None)` for a non-string or a text without a colon. */
  function ExtractUserCredentials(decodedBase64AuthorizationHeader: Input): (r: (Option<string>, Option<string>))
    ensures r.0.Some? <==> decodedBase64AuthorizationHeader.Text? && ':' in decodedBase64AuthorizationHeader.text
    ensures r.1.Some? <==> r.0.Some?
    ensures r.0.Some? ==> ':' !in r.0.value && r.0.value + ":" + r.1.value == decodedBase64AuthorizationHeader.text
  {
    if !decodedBase64AuthorizationHeader.Text? then (None, None)
    else
      var d := decodedBase64AuthorizationHeader.text;
      match IndexOf(d, ':')
      case None => (None, None)
      case Some(k) =>
        assert d == d[..k] + ":" + d[k + 1..];
        (Some(d[..k]), Some(d[k + 1..]))
  }

  /** Credentials are recovered from their joined form; the password may
      itself contain colons. */
  lemma ExtractUserCredentialsJoin(email: string, password: string)
    requires ':' !in email
    ensures ExtractUserCredentials(Text(email + ":" + password)) == (Some(email), Some(password))
  {
    var d := email + ":" + password;
    var r := ExtractUserCredentials(Text(d));
    assert d[..|email|] == email && d[|email|] == ':';
    assert IndexOf(d, ':') == Some(|email|);
    assert d[|email| + 1..] == password;
  }

  /** `u` is the first user of `users` whose password validates `password`. */
  predicate IsFirstValid<U(==)>(u: U, users: seq<U>, password: string, isValidPassword: (U, string) -> bool)
  {
    exists i :: 0 <= i < |users| && users[i] == u && isValidPassword(u, password) &&
      forall j :: 0 <= j < i ==> !isValidPassword(users[j], password)
  }

  /** The user that the credentials authenticate: `None` unless both are
      strings; otherwise the first user, in the order `search` returns the
      users with that email, whose password validates, or `None`. */
  function UserObjectFromCredentials<U(==)>(userEmail: Input, userPwd: Input,
                                        search: string -> Option<seq<U>>,
                                        isValidPassword: (U, string) -> bool): (r: Option<U>)
    ensures !userEmail.Text? || !userPwd.Text? ==> r.None?
    ensures r.Some? ==>
      search(userEmail.text).Some? &&
      IsFirstValid(r.value, search(userEmail.text).value, userPwd.text, isValidPassword)
    ensures (userEmail.Text? && userPwd.Text? && search(userEmail.text).Some? &&
             exists i :: 0 <= i < |search(userEmail.text).value| &&
               isValidPassword(search(userEmail.text).value[i], userPwd.text)) ==> r.Some?
  {
    if !userEmail.Text? || !userPwd.Text? then None
    else
      match search(userEmail.text)
      case None => None
      case Some(users) =>
        var pwd := userPwd.text;
        match FirstIndex(users, u => isValidPassword(u, pwd))
        case None => None
        case Some(i) => Some(users[i])
  }

  /** The user a request authenticates as: the four stages composed. An
      absent request or header, or any stage answering `None`, gives `None`;
      an exception of the decoding stage propagates, and nothing else raises. */
  function CurrentUser<U(==)>(request: Option<Request>,
                          search: string -> Option<seq<U>>,
                          isValidPassword: (U, string) -> bool): (r: Outcome<Option<U>>)
    ensures request.None? ==> r == Returned(None)
    ensures request.Some? && "Authorization" !in request.value.headers ==> r == Returned(None)
    ensures (request.Some? && "Authorization" in request.value.headers &&
             !("Basic " <= request.value.headers["Authorization"])) ==> r == Returned(None)
    ensures (request.Some? && "Authorization" in request.value.headers &&
             ExtractBase64AuthorizationHeader(Text(request.value.headers["Authorization"])).Some?) ==>
      var payload := ExtractBase64AuthorizationHeader(Text(request.value.headers["Authorization"])).value;
      var d := DecodeBase64AuthorizationHeader(Text(payload));
      (d.Raised? ==> r == Raised(d.exc)) &&
      (d == Returned(None) ==> r == Returned(None)) &&
      (d.Returned? && d.value.Some? && ExtractUserCredentials(Text(d.value.value)).0.None? ==>
         r == Returned(None)) &&
      (d.Returned? && d.value.Some? && ExtractUserCredentials(Text(d.value.value)).0.Some? ==>
         var (email, password) := ExtractUserCredentials(Text(d.value.value));
         r == Returned(UserObjectFromCredentials(Text(email.value), Text(password.value), search, isValidPassword)))
    ensures r.Raised? ==>
      request.Some? && "Authorization" in request.value.headers &&
      ExtractBase64AuthorizationHeader(Text(request.value.headers["Authorization"])).Some? &&
      DecodeBase64AuthorizationHeader(Text(
        ExtractBase64AuthorizationHeader(Text(request.value.headers["Authorization"])).value)).Raised?
    ensures r.Raised? ==> r.exc == UnicodeDecodeError || r.exc == ValueError
  {
    if request.None? then Returned(None)
    else
      match Get(request.value.headers, "Authorization")
      case None => Returned(None)
      case Some(authorizationHeader) =>
        match ExtractBase64AuthorizationHeader(Text(authorizationHeader))
        case None => Returned(None)
        case Some(base64AuthorizationHeader) =>
          match DecodeBase64AuthorizationHeader(Text(base64AuthorizationHeader))
          case Raised(e) => Raised(e)
          case Returned(None) => Returned(None)
          case Returned(Some(decoded)) =>
            var (userEmail, userPwd) := ExtractUserCredentials(Text(decoded));
            if userEmail.None? || userPwd.None? then Returned(None)
            else Returned(UserObjectFromCredentials(Text(userEmail.value), Text(userPwd.value), search, isValidPassword))
  }

  /** A "Basic " header whose payload is not Base64 authenticates nobody
      and raises nothing. */
  lemma CurrentUserRejectsNonBase64<U>(request: Request,
                                       search: string -> Option<seq<U>>,
                                       isValidPassword: (U, string) -> bool)
    requires "Authorization" in request.headers && request.headers["Authorization"] == "Basic !!!notb64"
    ensures CurrentUser(Some(request), search, isValidPassword) == Returned(None)
  {
    var payload := "!!!notb64";
    assert request.headers["Authorization"] == "Basic " + payload;
    ExtractBase64Exact(payload);
    NotBase64Payload(payload);
  }

  lemma NotBase64Payload(payload: string)
    requires payload == "!!!notb64"
    ensures DecodeBase64AuthorizationHeader(Text(payload)) == Returned(None)
  {
    assert IsAscii(payload) by {
      forall i | 0 <= i < |payload| ensures payload[i] as int < 0x80 {
        assert payload[i] in "!notb64";
      }
    }
    assert |payload| % 4 == 1;
  }

  /** The header a client builds for `email` and `password`. */
  function BasicHeader(email: string, password: string): string
  {
    "Basic " + Base64.Encode(Utf8.Encode(email + ":" + password))
  }

  /** A request carrying the header built from an email without colons
      authenticates exactly as the credentials do. */
  lemma CurrentUserAccepts<U>(request: Request, email: string, password: string,
                                  search: string -> Option<seq<U>>,
                                  isValidPassword: (U, string) -> bool)
    requires ':' !in email
    requires "Authorization" in request.headers && request.headers["Authorization"] == BasicHeader(email, password)
    ensures CurrentUser(Some(request), search, isValidPassword) ==
      Returned(UserObjectFromCredentials(Text(email), Text(password), search, isValidPassword))
  {
    var payload := Base64.Encode(Utf8.Encode(email + ":" + password));
    PayloadHasNoSpace(email + ":" + password, payload);
    ExtractBase64Exact(payload);
    DecodeBase64Iff(payload, email + ":" + password);
    ExtractUserCredentialsJoin(email, password);
    CurrentUserStages(request, payload, email + ":" + password, email, password, search, isValidPassword);
  }

  /** An encoding is ASCII text. */
  lemma EncodingIsAscii(b: seq<byte>, s: string)
    requires s == Base64.Encode(b)
    ensures IsAscii(s)
  {
    Base64.EncodeChars(b);
    forall i | 0 <= i < |s| ensures s[i] as int < 0x80 {
      assert Base64.IsEncodingChar(s[i]);
    }
  }

  lemma PayloadHasNoSpace(t: string, payload: string)
    requires payload == Base64.Encode(Utf8.Encode(t))
    ensures ' ' !in payload
  {
    Base64.EncodeChars(Utf8.Encode(t));
    forall i | 0 <= i < |payload| ensures payload[i] != ' ' {
      assert Base64.IsEncodingChar(payload[i]);
    }
  }

  /** The pipeline of `CurrentUser` once each stage's answer is known. */
  lemma CurrentUserStages<U>(request: Request, payload: string, decoded: string,
                                 email: string, password: string,
                                 search: string -> Option<seq<U>>,
                                 isValidPassword: (U, string) -> bool)
    requires "Authorization" in request.headers
    requires ExtractBase64AuthorizationHeader(Text(request.headers["Authorization"])) == Some(payload)
    requires DecodeBase64AuthorizationHeader(Text(payload)) == Returned(Some(decoded))
    requires ExtractUserCredentials(Text(decoded)) == (Some(email), Some(password))
    ensures CurrentUser(Some(request), search, isValidPassword) ==
      Returned(UserObjectFromCredentials(Text(email), Text(password), search, isValidPassword))
  {
  }

  /** The header presents `email` and `password`: its scheme is "Basic " and
      the first word after it is the encoding of "email:password". */
  predicate Presents(header: string, email: string, password: string)
  {
    "Basic " <= header && ':' !in email &&
    IsFirstWord(Base64.Encode(Utf8.Encode(email + ":" + password)), header[6..])
  }

  /** Whoever is authenticated was named by the header, and the password the
      header carries validates for them. */
  lemma CurrentUserSound<U>(request: Request, u: U,
                            search: string -> Option<seq<U>>,
                            isValidPassword: (U, string) -> bool)
    requires CurrentUser(Some(request), search, isValidPassword) == Returned(Some(u))
    ensures "Authorization" in request.headers
    ensures exists email, password ::
      Presents(request.headers["Authorization"], email, password) &&
      search(email).Some? && u in search(email).value && isValidPassword(u, password)
  {
    var header := request.headers["Authorization"];
    var payload := ExtractBase64AuthorizationHeader(Text(header)).value;
    var decoded := DecodeBase64AuthorizationHeader(Text(payload)).value.value;
    var (e, p) := ExtractUserCredentials(Text(decoded));
    var email, password := e.value, p.value;
    DecodeBase64Iff(payload, decoded);
    assert payload == Base64.Encode(Utf8.Encode(email + ":" + password));
    assert Presents(header, email, password);
    var users := search(email).value;
    assert IsFirstValid(u, users, password, isValidPassword);
  }
}
