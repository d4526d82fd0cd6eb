/**
 * The HTTP Digest challenge engine (digest.go): parsing a `WWW-Authenticate`
 * challenge, building a DigestChallenge from it, computing the request-digest
 * of section 3.2.2.1 of RFC 2617 for `qop=auth`, and writing the
 * `Authorization` header into a request.
 *
 * MD5 is not modelled: every operation that hashes takes the hash function as
 * a parameter `md5`, an arbitrary function from the hashed text to 16 bytes.
 */
module Digest {
  import opened Wrappers
  import opened GoStrings
  import opened GoFmt
  import opened Http

  datatype DigestChallenge = DigestChallenge(
    Realm: string,
    Qop: string,
    Method: string,
    Nonce: string,
    Opaque: string,
    Algorithm: string,
    Cnonce: string,
    Nc: int16)

  /** The 16 bytes of an MD5 sum. */
  type Md5Sum = s: seq<byte> | |s| == 16 witness seq(16, _ => 0)

  /** MD5 of the bytes of a string, left uninterpreted. */
  type Md5 = string -> Md5Sum

  const ChallengeHeaderName := "Www-Authenticate"
  const AuthorizationHeaderName := "Authorization"

  /** The cut characters `"` and space stripped from both halves of a parameter. */
  const Cutset: set<char> := {'"', ' '}

  /** A parameter text as the parser leaves it: no comma inside, no quote or
      space at either end. */
  predicate Plain(s: string)
  {
    ',' !in s && Trimmed(s, Cutset)
  }

  // ---------------------------------------------------------------------
  // parseWWWAuth

  /** What one comma-separated segment contributes: the segment is cut at its
      first `=` and both halves are trimmed; a segment without `=` contributes
      nothing. */
  function Binding(segment: string): (b: Option<(string, string)>)
    ensures b.Some? <==> '=' in segment
    ensures b.Some? ==> '=' !in b.value.0
    ensures b.Some? ==> Trimmed(b.value.0, Cutset) && Trimmed(b.value.1, Cutset)
    ensures b.Some? && ',' !in segment ==> Plain(b.value.0) && Plain(b.value.1)
  {
    var parts := SplitN2(segment, '=');
    if |parts| != 2 then None
    else
      var key := Trim(parts[0], Cutset);
      var value := Trim(parts[1], Cutset);
      InfixWithout(key, parts[0], '=');
      assert ',' !in segment ==> ',' !in key && ',' !in value by {
        if ',' !in segment {
          assert segment == parts[0] + ['='] + parts[1];
          InfixWithout(key, parts[0], ',');
          InfixWithout(value, parts[1], ',');
        }
      }
      Some((key, value))
  }

  /** The binding of every segment, in order. */
  function Bindings(segments: seq<string>): (bs: seq<Option<(string, string)>>)
    ensures |bs| == |segments|
    ensures forall i :: 0 <= i < |segments| ==> bs[i] == Binding(segments[i])
  {
    seq(|segments|, i requires 0 <= i < |segments| => Binding(segments[i]))
  }

  /** The map obtained by storing the bindings one after the other, so that a
      later binding of a key overwrites an earlier one. */
  function Collect(bindings: seq<Option<(string, string)>>): map<string, string>
  {
    if bindings == [] then map[]
    else
      var params := Collect(bindings[..|bindings| - 1]);
      match bindings[|bindings| - 1]
      case None => params
      case Some((key, value)) => params[key := value]
  }

  lemma {:induction false} CollectStep(bindings: seq<Option<(string, string)>>, i: nat)
    requires i < |bindings|
    ensures Collect(bindings[..i + 1]) ==
      match bindings[i]
      case None => Collect(bindings[..i])
      case Some((key, value)) => Collect(bindings[..i])[key := value]
  {
    assert bindings[..i + 1][..i] == bindings[..i];
  }

  /** The parameter map the parser builds from the comma-separated segments. */
  function ParamsOf(segments: seq<string>): map<string, string>
  {
    Collect(Bindings(segments))
  }

  /** The parameters of a `WWW-Authenticate` value: None (Go's nil map) unless
      the text before the first space is exactly `Digest`. */
  function ChallengeParams(header: string): Option<map<string, string>>
  {
    var s := SplitN2(header, ' ');
    if |s| != 2 || s[0] != "Digest" then None else Some(ParamsOf(Split(s[1], ',')))
  }

  /** parseWWWAuth: the loop over the comma-separated segments that fills the
      parameter map. */
  method ParseWWWAuth(r: Response) returns (params: Option<map<string, string>>)
    ensures params == ChallengeParams(HeaderGet(r.Header, ChallengeHeaderName))
    ensures var h := HeaderGet(r.Header, ChallengeHeaderName);
      params.Some? <==> |h| >= 7 && h[..7] == "Digest "
  {
    var header := HeaderGet(r.Header, ChallengeHeaderName);
    var s := SplitN2(header, ' ');
    if |s| != 2 || s[0] != "Digest" {
      ChallengeParamsScheme(header);
      return None;
    }
    var result := map[];
    var segments := Split(s[1], ',');
    ghost var bindings := Bindings(segments);
    for i := 0 to |segments|
      invariant result == Collect(bindings[..i])
    {
      CollectStep(bindings, i);
      var parts := SplitN2(segments[i], '=');
      assert bindings[i] == Binding(segments[i]);
      if |parts| != 2 {
        assert bindings[i] == None;
        continue;
      }
      assert bindings[i] == Some((Trim(parts[0], Cutset), Trim(parts[1], Cutset)));
      result := result[Trim(parts[0], Cutset) := Trim(parts[1], Cutset)];
    }
    assert bindings[..|segments|] == bindings;
    ChallengeParamsScheme(header);
    return Some(result);
  }

  /** A header is a Digest challenge exactly when it starts with `Digest `;
      its parameters then come from the text after that prefix. */
  lemma {:induction false} ChallengeParamsScheme(header: string)
    ensures ChallengeParams(header).Some? <==> |header| >= 7 && header[..7] == "Digest "
    ensures ChallengeParams(header).Some? ==>
      ChallengeParams(header).value == ParamsOf(Split(header[7..], ','))
  {
    var s := SplitN2(header, ' ');
    if |header| >= 7 && header[..7] == "Digest " {
      assert header[6] == ' ';
      assert forall k :: 0 <= k < 6 ==> header[k] != ' ';
      assert IndexOf(header, ' ') == 6;
      assert s[0] == header[..6] == "Digest";
    }
  }

  /** `Digest ` with nothing after it is a challenge without parameters. */
  lemma {:induction false} EmptyChallenge()
    ensures ChallengeParams("Digest ") == Some(map[])
  {
    ChallengeParamsScheme("Digest ");
    assert "Digest "[7..] == "";
    assert Split("", ',') == [""];
    assert ParamsOf([""]) == map[] by {
      assert [""][..0] == [];
    }
  }

  /** True when a binding stores `key`. */
  predicate Binds(b: Option<(string, string)>, key: string)
  {
    b.Some? && b.value.0 == key
  }

  /** True when binding `j` stores `key` and no later binding does. */
  predicate LastBinder(bindings: seq<Option<(string, string)>>, j: int, key: string)
  {
    0 <= j < |bindings| && Binds(bindings[j], key) && NoLaterBinder(bindings, j, key)
  }

  /** True when no binding after `j` stores `key`. */
  predicate NoLaterBinder(bindings: seq<Option<(string, string)>>, j: int, key: string)
  {
    forall j' :: 0 <= j' < |bindings| && j < j' ==> !Binds(bindings[j'], key)
  }

  /** A key is in the collected map exactly when some binding stores it, and
      its value is the one stored by the last binding of that key. */
  lemma {:induction false} CollectLastWins(bindings: seq<Option<(string, string)>>, key: string)
    ensures key in Collect(bindings) <==> exists j :: 0 <= j < |bindings| && Binds(bindings[j], key)
    ensures forall j :: LastBinder(bindings, j, key) ==>
      key in Collect(bindings) && Collect(bindings)[key] == bindings[j].value.1
  {
    CollectHasKey(bindings, key);
    forall j | LastBinder(bindings, j, key)
      ensures key in Collect(bindings) && Collect(bindings)[key] == bindings[j].value.1
    {
      CollectLastValue(bindings, key, j);
    }
  }

  lemma {:induction false} CollectHasKey(bindings: seq<Option<(string, string)>>, key: string)
    ensures key in Collect(bindings) <==> exists j :: 0 <= j < |bindings| && Binds(bindings[j], key)
  {
    if bindings != [] {
      var n := |bindings| - 1;
      var init := bindings[..n];
      CollectHasKey(init, key);
      if Binds(bindings[n], key) {
        assert key in Collect(bindings);
      } else {
        assert key in Collect(bindings) <==> key in Collect(init);
        if key in Collect(init) {
          var j :| 0 <= j < n && Binds(init[j], key);
          assert Binds(bindings[j], key);
        }
        if j :| 0 <= j < |bindings| && Binds(bindings[j], key) {
          assert j < n && Binds(init[j], key);
        }
      }
    }
  }

  lemma {:induction false} CollectLastValue(bindings: seq<Option<(string, string)>>, key: string, j: int)
    requires LastBinder(bindings, j, key)
    ensures key in Collect(bindings) && Collect(bindings)[key] == bindings[j].value.1
  {
    var n := |bindings| - 1;
    var init := bindings[..n];
    if j < n {
      assert !Binds(bindings[n], key);
      assert LastBinder(init, j, key) by {
        assert init[j] == bindings[j];
        forall j' | 0 <= j' < |init| && j < j'
          ensures !Binds(init[j'], key)
        {
          assert init[j'] == bindings[j'];
        }
      }
      CollectLastValue(init, key, j);
    }
  }

  /** A map whose keys and values are plain and whose keys have no `=`. */
  predicate PlainParams(params: map<string, string>)
  {
    forall key :: key in params ==> Plain(key) && '=' !in key && Plain(params[key])
  }

  /** A binding as the parser produces it from a segment without commas. */
  predicate PlainBinding(b: Option<(string, string)>)
  {
    b.Some? ==> Plain(b.value.0) && '=' !in b.value.0 && Plain(b.value.1)
  }

  lemma {:induction false} CollectPlain(bindings: seq<Option<(string, string)>>)
    requires forall i :: 0 <= i < |bindings| ==> PlainBinding(bindings[i])
    ensures PlainParams(Collect(bindings))
  {
    if bindings != [] {
      var n := |bindings| - 1;
      CollectPlain(bindings[..n]);
      assert PlainBinding(bindings[n]);
    }
  }

  /** Every key and value the parser stores is trimmed of quotes and spaces, no
      key contains `=`, and neither keys nor values contain a comma. */
  lemma {:induction false} ParamsOfPlain(segments: seq<string>)
    requires forall i :: 0 <= i < |segments| ==> ',' !in segments[i]
    ensures PlainParams(ParamsOf(segments))
  {
    CollectPlain(Bindings(segments));
  }

  /** What ChallengeParams returns is always plain. */
  lemma {:induction false} ChallengeParamsPlain(header: string)
    ensures ChallengeParams(header).Some? ==> PlainParams(ChallengeParams(header).value)
  {
    var s := SplitN2(header, ' ');
    if |s| == 2 {
      ParamsOfPlain(Split(s[1], ','));
    }
  }

  // ---------------------------------------------------------------------
  // ChallengeFromResponse

  /** Reading `params[key]` in Go: "" for a nil map or a missing key. */
  function Lookup(params: Option<map<string, string>>, key: string): (r: string)
    ensures (params.Some? ==> PlainParams(params.value)) ==> Plain(r)
  {
    if params.Some? && key in params.value then params.value[key] else ""
  }

  /** ChallengeFromResponse: copies realm, qop, nonce and opaque from the
      parsed challenge, takes the algorithm from it unless it is missing or
      empty (then `MD5`), and starts the nonce count at 0. */
  method ChallengeFromResponse(resp: Response) returns (d: DigestChallenge)
    ensures var params := ChallengeParams(HeaderGet(resp.Header, ChallengeHeaderName));
      && d.Realm == Lookup(params, "realm")
      && d.Qop == Lookup(params, "qop")
      && d.Nonce == Lookup(params, "nonce")
      && d.Opaque == Lookup(params, "opaque")
      && d.Algorithm == (if Lookup(params, "algorithm") == "" then "MD5" else Lookup(params, "algorithm"))
      && d.Method == "" && d.Cnonce == "" && d.Nc == 0
    ensures ChallengeParams(HeaderGet(resp.Header, ChallengeHeaderName)).None? ==>
      d == DigestChallenge("", "", "", "", "", "MD5", "", 0)
    ensures d.Algorithm != ""
    ensures Plain(d.Realm) && Plain(d.Qop) && Plain(d.Nonce) && Plain(d.Opaque) && Plain(d.Algorithm)
  {
    var params := ParseWWWAuth(resp);
    ChallengeParamsPlain(HeaderGet(resp.Header, ChallengeHeaderName));
    assert params.Some? ==> PlainParams(params.value);

    d := DigestChallenge("", "", "", "", "", "", "", 0);
    d := d.(Realm := Lookup(params, "realm"));
    d := d.(Qop := Lookup(params, "qop"));
    d := d.(Nonce := Lookup(params, "nonce"));
    d := d.(Opaque := Lookup(params, "opaque"));
    d := d.(Algorithm := "MD5");

    if Lookup(params, "algorithm") != "" {
      d := d.(Algorithm := Lookup(params, "algorithm"));
    }

    d := d.(Nc := 0);
  }

  // ---------------------------------------------------------------------
  // calculateChecksum and calculateResponse

  /** calculateChecksum: for the algorithm `MD5` exactly, HA1 and HA2 are the
      hex renderings of the MD5 of `user:realm:pass` and of `method:path`; for
      every other algorithm, `MD5-sess` included, both are empty. */
  function CalculateChecksum(d: DigestChallenge, user: string, pass: string, path: string, md5: Md5): (r: (string, string))
    ensures d.Algorithm != "MD5" ==> r == ("", "")
    ensures d.Algorithm == "MD5" ==>
      |r.0| == 32 && IsLowerHex(r.0) && UnhexBytes(r.0) == md5(user + ":" + d.Realm + ":" + pass)
    ensures d.Algorithm == "MD5" ==>
      |r.1| == 32 && IsLowerHex(r.1) && UnhexBytes(r.1) == md5(d.Method + ":" + path)
  {
    if d.Algorithm == "MD5" then
      var a1 := user + ":" + d.Realm + ":" + pass;
      var ha1 := HexBytes(md5(a1));
      var a2 := d.Method + ":" + path;
      var ha2 := HexBytes(md5(a2));
      UnhexHexBytes(md5(a1));
      UnhexHexBytes(md5(a2));
      (ha1, ha2)
    else
      ("", "")
  }

  /** The text whose MD5 is the request-digest: six fields joined by `:`. */
  function ResponseMessage(d: DigestChallenge, user: string, pass: string, path: string, md5: Md5): string
  {
    var (ha1, ha2) := CalculateChecksum(d, user, pass, path, md5);
    Join([ha1, d.Nonce, Hex08(d.Nc), d.Cnonce, d.Qop, ha2], ":")
  }

  /** calculateResponse: the request-digest is 32 lower-case hex digits and
      denotes the MD5 of the response message. */
  function CalculateResponse(d: DigestChallenge, user: string, pass: string, path: string, md5: Md5): (r: string)
    ensures |r| == 32 && IsLowerHex(r)
    ensures UnhexBytes(r) == md5(ResponseMessage(d, user, pass, path, md5))
  {
    var sum := md5(ResponseMessage(d, user, pass, path, md5));
    UnhexHexBytes(sum);
    HexBytes(sum)
  }

  /** Hexadecimal text never contains a colon, a comma, a quote or a space. */
  lemma {:induction false} HexPlain(s: string)
    requires IsLowerHex(s)
    ensures ':' !in s && Plain(s)
  {
  }

  /** The nc field is plain and colon-free too, sign included. */
  lemma {:induction false} Hex08Plain(n: int16)
    ensures ':' !in Hex08(n) && Plain(Hex08(n))
  {
    var s := Hex08(n);
    if n < 0 {
      assert s == [s[0]] + s[1..];
      HexPlain(s[1..]);
    } else {
      HexPlain(s);
    }
  }

  /** The response message has exactly six colon-separated fields, in the
      order HA1, nonce, nc, cnonce, qop, HA2, whenever nonce, cnonce and qop
      carry no colon of their own; nc is always eight characters. */
  lemma {:induction false} ResponseMessageFields(d: DigestChallenge, user: string, pass: string, path: string, md5: Md5)
    requires ':' !in d.Nonce && ':' !in d.Cnonce && ':' !in d.Qop
    ensures var (ha1, ha2) := CalculateChecksum(d, user, pass, path, md5);
      Split(ResponseMessage(d, user, pass, path, md5), ':') == [ha1, d.Nonce, Hex08(d.Nc), d.Cnonce, d.Qop, ha2]
    ensures |Hex08(d.Nc)| == 8
  {
    var (ha1, ha2) := CalculateChecksum(d, user, pass, path, md5);
    if d.Algorithm == "MD5" {
      HexPlain(ha1);
      HexPlain(ha2);
    }
    Hex08Plain(d.Nc);
    var fields := [ha1, d.Nonce, Hex08(d.Nc), d.Cnonce, d.Qop, ha2];
    assert forall i :: 0 <= i < |fields| ==> ':' !in fields[i];
    SplitJoin(fields, ':');
  }

  // ---------------------------------------------------------------------
  // ApplyAuth

  /** `d.Nc += 0x1` on an int16: the next value modulo 2^16, so 32767 wraps
      to -32768. */
  function Inc16(n: int16): (r: int16)
    ensures (r as int - n as int - 1) % 0x10000 == 0
  {
    if n == 0x7fff then -0x8000 else n + 1
  }

  /** One `name=value` directive of the `Authorization` header; a quoted one
      has its value in double quotes. */
  datatype Directive = Directive(name: string, value: string, quoted: bool)

  function Render(x: Directive): string
  {
    x.name + "=" + RenderedValue(x)
  }

  function Renders(ds: seq<Directive>): (r: seq<string>)
    ensures |r| == |ds|
    ensures forall i :: 0 <= i < |ds| ==> r[i] == Render(ds[i])
  {
    seq(|ds|, i requires 0 <= i < |ds| => Render(ds[i]))
  }

  /** The nine directives ApplyAuth always writes, in its fixed order, from
      the prepared challenge `c` (nonce count already incremented). */
  function BaseDirectives(c: DigestChallenge, user: string, uri: string, response: string): seq<Directive>
  {
    [ Directive("username", user, true),
      Directive("realm", c.Realm, true),
      Directive("nonce", c.Nonce, true),
      Directive("uri", uri, true),
      Directive("cnonce", c.Cnonce, true),
      Directive("nc", Hex08(c.Nc), false),
      Directive("qop", c.Qop, false),
      Directive("response", response, true),
      Directive("algorithm", c.Algorithm, false) ]
  }

  /** The directives of the header: the nine fixed ones, then `opaque` when
      the challenge has a non-empty opaque value. */
  function AuthorizationDirectives(c: DigestChallenge, user: string, uri: string, response: string): seq<Directive>
  {
    BaseDirectives(c, user, uri, response) +
    (if c.Opaque != "" then [Directive("opaque", c.Opaque, true)] else [])
  }

  /** The `Authorization` header value: `Digest ` and the directives joined
      by `, `. */
  function AuthorizationValue(c: DigestChallenge, user: string, uri: string, response: string): string
  {
    "Digest " + Join(Renders(AuthorizationDirectives(c, user, uri, response)), ", ")
  }

  /** ApplyAuth: works on a copy of the challenge (Go value receiver), so the
      caller's challenge keeps its nonce count; on the copy the count is
      incremented, the client nonce and the request method are filled in,
      and only the request's `Authorization` header is replaced. */
  method ApplyAuth(d: DigestChallenge, user: string, pass: string, cnonce: string, req: Request, md5: Md5)
    modifies req`Header
    ensures var c := d.(Nc := Inc16(d.Nc), Cnonce := cnonce, Method := req.Method);
      req.Header == old(req.Header)[AuthorizationHeaderName :=
        AuthorizationValue(c, user, req.Uri, CalculateResponse(c, user, pass, req.Uri, md5))]
  {
    var c := d;
    c := c.(Nc := Inc16(c.Nc));
    c := c.(Cnonce := cnonce);
    c := c.(Method := req.Method);
    var path := req.Uri;
    var response := CalculateResponse(c, user, pass, path, md5);

    var authHeader := "Digest " + Join(Renders(BaseDirectives(c, user, path, response)), ", ");

    if c.Opaque != "" {
      authHeader := authHeader + ", " + "opaque=\"" + c.Opaque + "\"";
      OpaqueSuffix(c, user, path, response);
    } else {
      assert AuthorizationDirectives(c, user, path, response) == BaseDirectives(c, user, path, response);
    }

    req.Header := req.Header[AuthorizationHeaderName := authHeader];
  }

  /** Appending `, opaque="…"` to the header of the nine fixed directives is
      the header of all ten. */
  lemma {:induction false} OpaqueSuffix(c: DigestChallenge, user: string, uri: string, response: string)
    requires c.Opaque != ""
    ensures AuthorizationValue(c, user, uri, response) ==
      "Digest " + Join(Renders(BaseDirectives(c, user, uri, response)), ", ") + ", " + "opaque=\"" + c.Opaque + "\""
  {
    var body := Join(Renders(BaseDirectives(c, user, uri, response)), ", ");
    OpaqueLast(c, user, uri, response);
    RenderOpaque(c.Opaque);
    AppendShape("Digest ", body, ", ", "opaque=\"", c.Opaque, "\"");
  }

  /** The `opaque` directive is always quoted. */
  lemma {:induction false} RenderOpaque(value: string)
    ensures Render(Directive("opaque", value, true)) == "opaque=\"" + value + "\""
  {
  }

  /** Regrouping six concatenated texts. */
  lemma {:induction false} AppendShape(a: string, b: string, c: string, d: string, e: string, f: string)
    ensures a + (b + c + (d + e + f)) == a + b + c + d + e + f
  {
  }

  /** The header of the ten directives is the header of the nine fixed ones,
      a separator, and the rendered `opaque` directive. */
  lemma {:induction false} OpaqueLast(c: DigestChallenge, user: string, uri: string, response: string)
    requires c.Opaque != ""
    ensures AuthorizationValue(c, user, uri, response) ==
      "Digest " + (Join(Renders(BaseDirectives(c, user, uri, response)), ", ") + ", " + Render(Directive("opaque", c.Opaque, true)))
  {
    var ds := BaseDirectives(c, user, uri, response);
    var last := Directive("opaque", c.Opaque, true);
    assert AuthorizationDirectives(c, user, uri, response) == ds + [last];
    assert Renders(ds + [last]) == Renders(ds) + [Render(last)];
    JoinSnoc(Renders(ds), Render(last), ", ");
  }

  // ---------------------------------------------------------------------
  // Reading a written header back with the challenge parser

  /** A directive the parser can read back: name and value are plain and the
      name has no `=`. */
  predicate WellFormed(x: Directive)
  {
    Plain(x.name) && '=' !in x.name && Plain(x.value)
  }

  /** The bindings the directives stand for, in order. */
  function Pairs(ds: seq<Directive>): (bs: seq<Option<(string, string)>>)
    ensures |bs| == |ds|
    ensures forall i :: 0 <= i < |ds| ==> bs[i] == Some((ds[i].name, ds[i].value))
  {
    seq(|ds|, i requires 0 <= i < |ds| => Some((ds[i].name, ds[i].value)))
  }

  /** A rendered directive, after the optional space left by the `, `
      separator, binds its name to its value, quotes removed. */
  lemma {:induction false} BindingOfRendered(pre: string, x: Directive)
    requires pre == "" || pre == " "
    requires WellFormed(x)
    ensures Binding(pre + Render(x)) == Some((x.name, x.value))
  {
    RenderedSplit(pre, x);
    TrimName(pre, x);
    RenderedValueTrims(x);
  }

  /** The first `=` of a rendered directive is the one after its name. */
  lemma {:induction false} RenderedSplit(pre: string, x: Directive)
    requires pre == "" || pre == " "
    requires WellFormed(x)
    ensures Binding(pre + Render(x)) == Some((Trim(pre + x.name, Cutset), Trim(RenderedValue(x), Cutset)))
  {
    assert pre + Render(x) == (pre + x.name) + ['='] + RenderedValue(x);
    BindingAt(pre + x.name, RenderedValue(x));
  }

  lemma {:induction false} TrimName(pre: string, x: Directive)
    requires pre == "" || pre == " "
    requires WellFormed(x)
    ensures Trim(pre + x.name, Cutset) == x.name
  {
    assert pre + x.name == pre + x.name + [];
    TrimFrame(pre, x.name, [], Cutset);
  }

  /** The value part of a rendered directive, quoted or not. */
  function RenderedValue(x: Directive): string
  {
    if x.quoted then "\"" + x.value + "\"" else x.value
  }

  lemma {:induction false} RenderedValueTrims(x: Directive)
    requires Plain(x.value)
    ensures Trim(RenderedValue(x), Cutset) == x.value
  {
    if x.quoted {
      TrimFrame("\"", x.value, "\"", Cutset);
    } else {
      assert RenderedValue(x) == [] + x.value + [];
      TrimFrame([], x.value, [], Cutset);
    }
  }

  /** A segment cut at its first `=`. */
  lemma {:induction false} BindingAt(a: string, b: string)
    requires '=' !in a
    ensures Binding(a + ['='] + b) == Some((Trim(a, Cutset), Trim(b, Cutset)))
  {
    SplitN2At(a, b, '=');
  }

  /** The header `Digest ` + the rendered directives joined by `, ` parses
      back, segment by segment, into the directives' own bindings. */
  lemma {:induction false} DirectivesParseBack(ds: seq<Directive>)
    requires |ds| >= 1
    requires forall i :: 0 <= i < |ds| ==> WellFormed(ds[i])
    ensures ChallengeParams("Digest " + Join(Renders(ds), ", ")) == Some(Collect(Pairs(ds)))
  {
    DigestPrefix(Join(Renders(ds), ", "));
    RenderedSegments(ds);
    RenderedBindings(ds);
  }

  /** `Digest ` followed by any text is a challenge whose parameters come
      from that text. */
  lemma {:induction false} DigestPrefix(rest: string)
    ensures ChallengeParams("Digest " + rest) == Some(ParamsOf(Split(rest, ',')))
  {
    var header := "Digest " + rest;
    ChallengeParamsScheme(header);
    assert header[..7] == "Digest " && header[7..] == rest;
  }

  /** Splitting the joined directives at commas gives each rendered
      directive back, every one but the first after a space. */
  lemma {:induction false} RenderedSegments(ds: seq<Directive>)
    requires |ds| >= 1
    requires forall i :: 0 <= i < |ds| ==> WellFormed(ds[i])
    ensures Split(Join(Renders(ds), ", "), ',') == Spaced(Renders(ds))
  {
    JoinCommaSpace(Renders(ds));
    var segments := Spaced(Renders(ds));
    forall i | 0 <= i < |segments|
      ensures ',' !in segments[i]
    {
      SegmentWithoutComma(ds, i);
    }
    SplitJoin(segments, ',');
  }

  lemma {:induction false} SegmentWithoutComma(ds: seq<Directive>, i: nat)
    requires i < |ds| && WellFormed(ds[i])
    ensures ',' !in Spaced(Renders(ds))[i]
  {
    var x := ds[i];
    assert ',' !in RenderedValue(x);
    assert ',' !in Render(x);
    assert Renders(ds)[i] == Render(x);
  }

  /** Each segment binds its directive's name to its value. */
  lemma {:induction false} RenderedBindings(ds: seq<Directive>)
    requires |ds| >= 1
    requires forall i :: 0 <= i < |ds| ==> WellFormed(ds[i])
    ensures Bindings(Spaced(Renders(ds))) == Pairs(ds)
  {
    var segments := Spaced(Renders(ds));
    forall i | 0 <= i < |segments|
      ensures Bindings(segments)[i] == Pairs(ds)[i]
    {
      RenderedBindingAt(ds, i);
    }
  }

  lemma {:induction false} RenderedBindingAt(ds: seq<Directive>, i: nat)
    requires i < |ds| && WellFormed(ds[i])
    ensures Bindings(Spaced(Renders(ds)))[i] == Pairs(ds)[i]
  {
    var pre := if i == 0 then "" else " ";
    assert Spaced(Renders(ds))[i] == pre + Render(ds[i]);
    BindingOfRendered(pre, ds[i]);
  }

  /** True when no two directives share a name. */
  predicate DistinctNames(ds: seq<Directive>)
  {
    forall i, j :: 0 <= i < j < |ds| ==> ds[i].name != ds[j].name
  }

  /** With distinct names, every directive's value is found under its name. */
  lemma {:induction false} PairsLookup(ds: seq<Directive>, j: nat)
    requires DistinctNames(ds) && j < |ds|
    ensures ds[j].name in Collect(Pairs(ds)) && Collect(Pairs(ds))[ds[j].name] == ds[j].value
  {
    CollectLastWins(Pairs(ds), ds[j].name);
    assert LastBinder(Pairs(ds), j, ds[j].name);
  }

  /** A name no directive carries is not in the parsed map. */
  lemma {:induction false} PairsAbsent(ds: seq<Directive>, key: string)
    requires forall i :: 0 <= i < |ds| ==> ds[i].name != key
    ensures key !in Collect(Pairs(ds))
  {
    CollectLastWins(Pairs(ds), key);
  }

  /** The header ApplyAuth writes, read back with the challenge parser, yields
      every value it was built from, whenever those values are plain; the
      `opaque` parameter is present exactly when the challenge had one. */
  lemma {:induction false} AuthorizationParsesBack(c: DigestChallenge, user: string, uri: string, response: string)
    requires Plain(user) && Plain(uri) && IsLowerHex(response)
    requires Plain(c.Realm) && Plain(c.Nonce) && Plain(c.Cnonce) && Plain(c.Qop)
    requires Plain(c.Algorithm) && Plain(c.Opaque)
    ensures var p := ChallengeParams(AuthorizationValue(c, user, uri, response));
      && p.Some?
      && Lookup(p, "username") == user
      && Lookup(p, "realm") == c.Realm
      && Lookup(p, "nonce") == c.Nonce
      && Lookup(p, "uri") == uri
      && Lookup(p, "cnonce") == c.Cnonce
      && Lookup(p, "nc") == Hex08(c.Nc)
      && Lookup(p, "qop") == c.Qop
      && Lookup(p, "response") == response
      && Lookup(p, "algorithm") == c.Algorithm
      && Lookup(p, "opaque") == c.Opaque
      && ("opaque" in p.value <==> c.Opaque != "")
  {
    AuthorizationWellFormed(c, user, uri, response);
    DirectivesParseBack(AuthorizationDirectives(c, user, uri, response));
    AuthorizationFieldsA(c, user, uri, response);
    AuthorizationFieldsB(c, user, uri, response);
    AuthorizationFieldsC(c, user, uri, response);
    AuthorizationOpaque(c, user, uri, response);
  }

  /** The map the directives of the header stand for. */
  function AuthorizationParams(c: DigestChallenge, user: string, uri: string, response: string): map<string, string>
  {
    Collect(Pairs(AuthorizationDirectives(c, user, uri, response)))
  }

  lemma {:induction false} AuthorizationFieldsA(c: DigestChallenge, user: string, uri: string, response: string)
    ensures var m := AuthorizationParams(c, user, uri, response);
      && "username" in m && m["username"] == user
      && "realm" in m && m["realm"] == c.Realm
      && "nonce" in m && m["nonce"] == c.Nonce
  {
    var ds := AuthorizationDirectives(c, user, uri, response);
    AuthorizationDistinct(c, user, uri, response);
    PairsLookup(ds, 0);
    PairsLookup(ds, 1);
    PairsLookup(ds, 2);
  }

  lemma {:induction false} AuthorizationFieldsB(c: DigestChallenge, user: string, uri: string, response: string)
    ensures var m := AuthorizationParams(c, user, uri, response);
      && "uri" in m && m["uri"] == uri
      && "cnonce" in m && m["cnonce"] == c.Cnonce
      && "nc" in m && m["nc"] == Hex08(c.Nc)
  {
    var ds := AuthorizationDirectives(c, user, uri, response);
    AuthorizationDistinct(c, user, uri, response);
    PairsLookup(ds, 3);
    PairsLookup(ds, 4);
    PairsLookup(ds, 5);
  }

  lemma {:induction false} AuthorizationFieldsC(c: DigestChallenge, user: string, uri: string, response: string)
    ensures var m := AuthorizationParams(c, user, uri, response);
      && "qop" in m && m["qop"] == c.Qop
      && "response" in m && m["response"] == response
      && "algorithm" in m && m["algorithm"] == c.Algorithm
  {
    var ds := AuthorizationDirectives(c, user, uri, response);
    AuthorizationDistinct(c, user, uri, response);
    PairsLookup(ds, 6);
    PairsLookup(ds, 7);
    PairsLookup(ds, 8);
  }

  lemma {:induction false} AuthorizationOpaque(c: DigestChallenge, user: string, uri: string, response: string)
    ensures var m := AuthorizationParams(c, user, uri, response);
      && ("opaque" in m <==> c.Opaque != "")
      && (c.Opaque != "" ==> m["opaque"] == c.Opaque)
  {
    var ds := AuthorizationDirectives(c, user, uri, response);
    if c.Opaque != "" {
      AuthorizationDistinct(c, user, uri, response);
      PairsLookup(ds, 9);
    } else {
      AuthorizationWithoutOpaque(c, user, uri, response);
      PairsAbsent(ds, "opaque");
    }
  }

  lemma {:induction false} AuthorizationWellFormed(c: DigestChallenge, user: string, uri: string, response: string)
    requires Plain(user) && Plain(uri) && IsLowerHex(response)
    requires Plain(c.Realm) && Plain(c.Nonce) && Plain(c.Cnonce) && Plain(c.Qop)
    requires Plain(c.Algorithm) && Plain(c.Opaque)
    ensures var ds := AuthorizationDirectives(c, user, uri, response);
      forall i :: 0 <= i < |ds| ==> WellFormed(ds[i])
  {
    HexPlain(response);
    Hex08Plain(c.Nc);
    var ds := AuthorizationDirectives(c, user, uri, response);
    forall i | 0 <= i < |ds|
      ensures WellFormed(ds[i])
    {
      NameWellFormed(ds[i].name);
    }
  }

  /** A directive name: lower-case letters only. */
  lemma {:induction false} NameWellFormed(name: string)
    requires name in {"username", "realm", "nonce", "uri", "cnonce", "nc", "qop", "response", "algorithm", "opaque"}
    ensures Plain(name) && '=' !in name
  {
    assert forall k :: 0 <= k < |name| ==> 'a' <= name[k] <= 'z';
  }

  /** The ten directive names differ from one another. */
  lemma {:induction false} AuthorizationDistinct(c: DigestChallenge, user: string, uri: string, response: string)
    ensures DistinctNames(AuthorizationDirectives(c, user, uri, response))
  {
    var ds := AuthorizationDirectives(c, user, uri, response);
    forall i, j | 0 <= i < j < |ds|
      ensures ds[i].name != ds[j].name
    {
      assert |ds[i].name| != |ds[j].name| || ds[i].name[0] != ds[j].name[0];
    }
  }

  lemma {:induction false} AuthorizationWithoutOpaque(c: DigestChallenge, user: string, uri: string, response: string)
    requires c.Opaque == ""
    ensures var ds := AuthorizationDirectives(c, user, uri, response);
      forall i :: 0 <= i < |ds| ==> ds[i].name != "opaque"
  {
    var ds := AuthorizationDirectives(c, user, uri, response);
    forall i | 0 <= i < |ds|
      ensures ds[i].name != "opaque"
    {
      assert |ds[i].name| != 6 || ds[i].name[0] != 'o';
    }
  }
}
