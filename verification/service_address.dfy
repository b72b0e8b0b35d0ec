/**
 `ServiceAddress`: a connection string kept verbatim, with two read-only
 queries: the port it names (if any) and whether its scheme is a secure one.
 Both queries are functions of an immutable value, so they cannot change
 the address.
 */
module Address {
  import opened Wrappers
  import opened Strings
  import opened U16

  /** The single variant `ServiceAddress::String`. */
  datatype ServiceAddress = String(addr: string)

  /** `ServiceAddress::from_string`: no normalisation or validation. */
  function FromString(address: string): (a: ServiceAddress)
    ensures AsStr(a) == address
  {
    String(address)
  }

  /** `ServiceAddress::as_str` */
  function AsStr(a: ServiceAddress): string {
    match a
    case String(s) => s
  }

  /** Storing a string and reading it back is the identity, in both directions. */
  lemma AsStrFromString(s: string, a: ServiceAddress)
    ensures AsStr(FromString(s)) == s
    ensures FromString(AsStr(a)) == a
  {
  }

  /** The schemes whose `scheme://` prefix `is_secure` accepts. */
  const SecureSchemes: set<string> := {"https", "wss", "ftps", "sftp", "ssh"}

  /** `ServiceAddress::is_secure`: a case-sensitive prefix test. */
  predicate IsSecure(a: ServiceAddress) {
    var s := AsStr(a);
    || StartsWith(s, "https://")
    || StartsWith(s, "wss://")
    || StartsWith(s, "ftps://")
    || StartsWith(s, "sftp://")
    || StartsWith(s, "ssh://")
  }

  /**
   For a scheme name without `:`, an address starts with `scheme://`
   exactly when its text before the first `://` is that scheme.
   */
  lemma {:induction false} SchemePrefix(s: string, scheme: string)
    requires ':' !in scheme
    ensures StartsWith(s, scheme + "://") <==> Contains(s, "://") && FirstField(s, "://") == scheme
  {
    var n := |scheme|;
    if StartsWith(s, scheme + "://") {
      assert s[n..n + 3] == (scheme + "://")[n..n + 3] == "://";
      forall j | 0 <= j < n
        ensures s[j] != ':'
      {
        assert s[j] == scheme[j];
      }
      FirstOccurrence(s, "://", n);
    }
    if Contains(s, "://") && FirstField(s, "://") == scheme {
      assert OccursAt(s, "://", n);
      assert s[..n + 3] == s[..n] + s[n..n + 3];
    }
  }

  /**
   `is_secure` holds exactly when the address has a `://` and the text
   before the first one is one of the five secure scheme names.
   */
  lemma IsSecureIffSecureScheme(a: ServiceAddress)
    ensures IsSecure(a) <==>
              Contains(AsStr(a), "://") && FirstField(AsStr(a), "://") in SecureSchemes
  {
    var s := AsStr(a);
    assert "https://" == "https" + "://";
    assert "wss://" == "wss" + "://";
    assert "ftps://" == "ftps" + "://";
    assert "sftp://" == "sftp" + "://";
    assert "ssh://" == "ssh" + "://";
    SchemePrefix(s, "https");
    SchemePrefix(s, "wss");
    SchemePrefix(s, "ftps");
    SchemePrefix(s, "sftp");
    SchemePrefix(s, "ssh");
  }

  /**
   The port read from the host part: the piece after its first `:` and
   before its second, cut at the first `/`, parsed as a `u16`.
   */
  function PortOfHost(host: string): Option<u16> {
    match SecondField(host, ":")
    case None => None
    case Some(segment) => ParseU16(FirstField(segment, "/"))
  }

  /**
   `ServiceAddress::extract_port`. With a `://`, the host part is the piece
   between the first and the second `://`; without one, it is the whole
   string. The split on `://` always has two pieces once the string
   contains it, so the first `None` below is never reached.
   */
  function ExtractPort(a: ServiceAddress): Option<u16>
  {
    var s := AsStr(a);
    if Contains(s, "://") then
      match SecondField(s, "://")
      case None => None
      case Some(host) => PortOfHost(host)
    else
      PortOfHost(s)
  }

  /** Digits never start a separator whose first character is not a digit. */
  lemma DigitsSkip(d: string, t: string, sep: string)
    requires AllDigits(d) && |sep| > 0 && !IsDigit(sep[0])
    ensures FirstField(d + t, sep) == d + FirstField(t, sep)
  {
    forall j | 0 <= j < |d|
      ensures !OccursAt(d + t, sep, j)
    {
      if j + |sep| <= |d + t| {
        assert (d + t)[j..j + |sep|][0] == d[j];
      }
    }
    FirstFieldSkip(d, t, sep);
  }

  /** A text that starts with the separator has an empty first field. */
  lemma FirstFieldAtStart(s: string, sep: string)
    requires OccursAt(s, sep, 0)
    ensures FirstField(s, sep) == []
  {
  }

  /**
   The port of a host part `host:digits…` with a colon-free host is the
   value of the digits, whatever follows them as long as it starts with
   `/` or `:` (or nothing follows).
   */
  lemma {:induction false} PortOfHostComposed(host: string, p: u16, tail: string)
    requires ':' !in host
    requires tail == [] || tail[0] == '/' || tail[0] == ':'
    ensures PortOfHost(host + ":" + Decimal(p) + tail) == Some(p)
  {
    var d := Decimal(p);
    var after := d + tail;
    assert host + ":" + d + tail == host + (":" + after);
    SeparatorAfter(host, ":", after);
    var f := FirstField(tail, ":");
    assert FirstField(after, ":") == d + f by {
      DigitsSkip(d, tail, ":");
    }
    assert FirstField(d + f, "/") == d by {
      DigitsSkip(d, f, "/");
      if f != [] {
        assert f[0] == tail[0] == '/';
        assert OccursAt(f, "/", 0) by { assert f[0..1] == [f[0]]; }
        FirstFieldAtStart(f, "/");
      }
      assert d + [] == d;
    }
    ParseDecimal(p);
  }

  /**
   The text after `prefix` + `sep`, where `prefix` does not contain the
   separator's first character, is the second piece of the split.
   */
  lemma SeparatorAfter(prefix: string, sep: string, after: string)
    requires |sep| > 0 && sep[0] !in prefix
    ensures SecondField(prefix + (sep + after), sep) == Some(FirstField(after, sep))
  {
    var s := prefix + (sep + after);
    var n := |prefix|;
    assert s[n + |sep|..] == after;
    SeparatorIndex(prefix, sep, after);
    SecondFieldAt(s, sep, n);
  }

  /** The first occurrence of `sep` in `prefix + sep + after` is right after `prefix`. */
  lemma SeparatorIndex(prefix: string, sep: string, after: string)
    requires |sep| > 0 && sep[0] !in prefix
    ensures IndexOf(prefix + (sep + after), sep) == Some(|prefix|)
  {
    var s := prefix + (sep + after);
    var n := |prefix|;
    forall j | 0 <= j < n
      ensures s[j] != sep[0]
    {
      assert s[j] == prefix[j];
    }
    assert s[n..n + |sep|] == sep;
    FirstOccurrence(s, sep, n);
  }

  /** No `://` starts inside `host:digits` when the host has no `:`. */
  lemma NoSchemeInHostPort(host: string, d: string, t: string)
    requires ':' !in host && |d| > 0 && AllDigits(d)
    ensures forall j :: 0 <= j < |host + ":" + d| ==> !OccursAt(host + ":" + d + t, "://", j)
  {
    var s := host + ":" + d + t;
    var n := |host|;
    forall j | 0 <= j < n + 1 + |d|
      ensures !OccursAt(s, "://", j)
    {
      if j + 3 <= |s| {
        assert s[j..j + 3][0] == s[j] && s[j..j + 3][1] == s[j + 1];
        if j < n {
          assert s[j] == host[j];
        } else if j == n {
          assert s[j + 1] == d[0];
        } else {
          assert s[j] == d[j - n - 1];
        }
      }
    }
  }

  /**
   `scheme://host:port…` yields the port, for a scheme and host without
   `:` and anything after the port that starts with `/` or `:`.
   */
  lemma {:induction false} ExtractPortWithScheme(scheme: string, host: string, p: u16, tail: string)
    requires ':' !in scheme && ':' !in host
    requires tail == [] || tail[0] == '/' || tail[0] == ':'
    ensures ExtractPort(FromString(scheme + "://" + host + ":" + Decimal(p) + tail)) == Some(p)
  {
    var d := Decimal(p);
    var hostPort := host + ":" + d;
    var rest := hostPort + tail;
    var s := scheme + "://" + host + ":" + d + tail;
    assert s == scheme + ("://" + rest);
    SeparatorAfter(scheme, "://", rest);
    var f := FirstField(tail, "://");
    assert FirstField(rest, "://") == hostPort + f by {
      NoSchemeInHostPort(host, d, tail);
      FirstFieldSkip(hostPort, tail, "://");
    }
    assert f == [] || f[0] == tail[0];
    PortOfHostComposed(host, p, f);
  }

  /**
   `host:port…` without any `://` yields the port, for a host without `:`
   and anything after the port that starts with `/` or `:`.
   */
  lemma {:induction false} ExtractPortWithoutScheme(host: string, p: u16, tail: string)
    requires ':' !in host && !Contains(tail, "://")
    requires tail == [] || tail[0] == '/' || tail[0] == ':'
    ensures ExtractPort(FromString(host + ":" + Decimal(p) + tail)) == Some(p)
  {
    NoSchemeInHostPort(host, Decimal(p), tail);
    IndexOfSkip(host + ":" + Decimal(p), tail, "://");
    PortOfHostComposed(host, p, tail);
  }

  /** An address without any `:` has no port. */
  lemma ExtractPortWithoutColon(s: string)
    requires ':' !in s
    ensures ExtractPort(FromString(s)) == None
  {
    AbsentChar(s, "://");
    AbsentChar(s, ":");
  }

  /** `scheme://host` with no `:` in the scheme or the host has no port. */
  lemma {:induction false} ExtractPortSchemeWithoutPort(scheme: string, host: string)
    requires ':' !in scheme && ':' !in host
    ensures ExtractPort(FromString(scheme + "://" + host)) == None
  {
    var s := scheme + "://" + host;
    var n := |scheme|;
    forall j | 0 <= j < n
      ensures s[j] != ':'
    {
      assert s[j] == scheme[j];
    }
    assert s[n..n + 3] == "://";
    FirstOccurrence(s, "://", n);
    assert s[n + 3..] == host;
    AbsentChar(host, "://");
    AbsentChar(host, ":");
  }

  /**
   The port described without the second split: the host part is all the
   text after the first `://` (or the whole address when there is none).
   */
  function PortAfterFirstScheme(s: string): Option<u16> {
    match IndexOf(s, "://")
    case Some(i) => PortOfHost(s[i + 3..])
    case None => PortOfHost(s)
  }

  /**
   Cutting the host part at a second `://` never changes the port: the
   second `://` starts with `:`, which already ends the port piece.
   */
  lemma {:induction false} ExtractPortAfterFirstScheme(a: ServiceAddress)
    ensures ExtractPort(a) == PortAfterFirstScheme(AsStr(a))
  {
    var s := AsStr(a);
    if Contains(s, "://") {
      var i := IndexOf(s, "://").value;
      var t := s[i + 3..];
      assert SecondField(s, "://") == Some(FirstField(t, "://"));
      assert ExtractPort(a) == PortOfHost(FirstField(t, "://"));
      assert PortAfterFirstScheme(s) == PortOfHost(t);
      SecondCutIrrelevant(t);
    }
  }

  /** The port of a host part is the same whether or not it is cut at its first `://`. */
  lemma SecondCutIrrelevant(t: string)
    ensures PortOfHost(FirstField(t, "://")) == PortOfHost(t)
  {
    if Contains(t, "://") {
      var q := IndexOf(t, "://").value;
      assert t == t[..q] + t[q..];
      assert t[q..][..3] == "://" by { assert t[q..q + 3] == "://"; }
      if Contains(t[..q], ":") {
        CutAfterColon(t[..q], t[q..]);
      } else {
        CutBeforeColon(t[..q], t[q..]);
      }
    }
  }

  /** A host part with a `:` before a later `://`: both cuts end the port piece at the same place. */
  lemma {:induction false} CutAfterColon(rest: string, v: string)
    requires Contains(rest, ":") && |v| >= 3 && v[..3] == "://"
    ensures PortOfHost(rest) == PortOfHost(rest + v)
  {
    assert v[0] == ':';
    CharIndexPrefix(rest, v, ':');
    var j := IndexOf(rest, ":").value;
    SecondFieldAt(rest, ":", j);
    SecondFieldAt(rest + v, ":", j);
    assert (rest + v)[j + 1..] == rest[j + 1..] + v;
    FirstFieldStopsAt(rest[j + 1..], v, ':');
  }

  /** A host part whose only `:` before the `://` is the one of `://`: neither cut yields a port. */
  lemma {:induction false} CutBeforeColon(rest: string, v: string)
    requires !Contains(rest, ":") && |v| >= 3 && v[..3] == "://"
    ensures PortOfHost(rest) == None && PortOfHost(rest + v) == None
  {
    assert v[0] == ':';
    CharIndexPrefix(rest, v, ':');
    var q := |rest|;
    SecondFieldAt(rest + v, ":", q);
    var w := (rest + v)[q + 1..];
    assert w == v[1..];
    assert w[0] == '/' by { assert w[0] == v[1] == v[..3][1]; }
    var f := FirstField(w, ":");
    if f != [] {
      assert f[0] == w[0];
      assert OccursAt(f, "/", 0) by { assert f[0..1] == [f[0]]; }
      FirstFieldAtStart(f, "/");
    }
  }

  /** The decimal renderings the unit tests' ports use. */
  lemma DecimalExamples()
    ensures Decimal(80) == "80" && Decimal(443) == "443"
    ensures Decimal(8080) == "8080" && Decimal(9090) == "9090"
  {
    assert Decimal(8) == "8" && Decimal(9) == "9" && Decimal(4) == "4";
    assert Decimal(80) == Decimal(8) + "0";
    assert Decimal(44) == Decimal(4) + "4";
    assert Decimal(443) == Decimal(44) + "3";
    assert Decimal(90) == Decimal(9) + "0";
    assert Decimal(808) == Decimal(80) + "8";
    assert Decimal(909) == Decimal(90) + "9";
    assert Decimal(8080) == Decimal(808) + "0";
    assert Decimal(9090) == Decimal(909) + "0";
  }

  // The unit tests' vectors. Each is stated on the test's literal text and
  // proved through a `…Parts` lemma that states it on the concatenation of
  // the address's parts (scheme, `://`, host, `:`, port, path).

  /** `http://localhost:8080` has port 8080. */
  lemma ExtractPortHttpExample()
    ensures ExtractPort(FromString("http://localhost:8080")) == Some(8080)
  {
    assert "http://localhost:8080" == "http" + "://" + "localhost" + ":" + "8080";
    ExtractPortHttpParts();
  }

  lemma ExtractPortHttpParts()
    ensures ExtractPort(FromString("http" + "://" + "localhost" + ":" + "8080")) == Some(8080)
  {
    DecimalExamples();
    ExtractPortWithScheme("http", "localhost", 8080, "");
    assert "http" + "://" + "localhost" + ":" + "8080" + "" == "http" + "://" + "localhost" + ":" + "8080";
  }

  /** `https://api.example.com:443` has port 443. */
  lemma ExtractPortHttpsExample()
    ensures ExtractPort(FromString("https://api.example.com:443")) == Some(443)
  {
    assert "https://api.example.com:443" == "https" + "://" + "api.example.com" + ":" + "443";
    ExtractPortHttpsParts();
  }

  lemma ExtractPortHttpsParts()
    ensures ExtractPort(FromString("https" + "://" + "api.example.com" + ":" + "443")) == Some(443)
  {
    DecimalExamples();
    ExtractPortWithScheme("https", "api.example.com", 443, "");
    assert "https" + "://" + "api.example.com" + ":" + "443" + "" == "https" + "://" + "api.example.com" + ":" + "443";
  }

  /** `http://localhost:8080/api/v1` has port 8080: the path is cut off at its `/`. */
  lemma ExtractPortPathExample()
    ensures ExtractPort(FromString("http://localhost:8080/api/v1")) == Some(8080)
  {
    assert "http://localhost:8080/api/v1" == "http" + "://" + "localhost" + ":" + "8080" + "/api/v1";
    ExtractPortPathParts();
  }

  lemma ExtractPortPathParts()
    ensures ExtractPort(FromString("http" + "://" + "localhost" + ":" + "8080" + "/api/v1")) == Some(8080)
  {
    DecimalExamples();
    ExtractPortWithScheme("http", "localhost", 8080, "/api/v1");
  }

  /** `localhost:8080`, without a scheme, has port 8080. */
  lemma ExtractPortLocalhostExample()
    ensures ExtractPort(FromString("localhost:8080")) == Some(8080)
  {
    assert "localhost:8080" == "localhost" + ":" + "8080";
    ExtractPortLocalhostParts();
  }

  lemma ExtractPortLocalhostParts()
    ensures ExtractPort(FromString("localhost" + ":" + "8080")) == Some(8080)
  {
    DecimalExamples();
    assert !Contains("", "://");
    ExtractPortWithoutScheme("localhost", 8080, "");
    assert "localhost" + ":" + "8080" + "" == "localhost" + ":" + "8080";
  }

  /** `127.0.0.1:9090`, without a scheme, has port 9090. */
  lemma ExtractPortLoopbackExample()
    ensures ExtractPort(FromString("127.0.0.1:9090")) == Some(9090)
  {
    assert "127.0.0.1:9090" == "127.0.0.1" + ":" + "9090";
    ExtractPortLoopbackParts();
  }

  lemma ExtractPortLoopbackParts()
    ensures ExtractPort(FromString("127.0.0.1" + ":" + "9090")) == Some(9090)
  {
    DecimalExamples();
    assert !Contains("", "://");
    ExtractPortWithoutScheme("127.0.0.1", 9090, "");
    assert "127.0.0.1" + ":" + "9090" + "" == "127.0.0.1" + ":" + "9090";
  }

  /** `http://localhost` has no port. */
  lemma ExtractPortNoPortExample()
    ensures ExtractPort(FromString("http://localhost")) == None
  {
    assert "http://localhost" == "http" + "://" + "localhost";
    ExtractPortNoPortParts();
  }

  lemma ExtractPortNoPortParts()
    ensures ExtractPort(FromString("http" + "://" + "localhost")) == None
  {
    ExtractPortSchemeWithoutPort("http", "localhost");
  }

  /** The port is read after the first `:`, not the last: `localhost:80:90` yields 80. */
  lemma ExtractPortFirstColon()
    ensures ExtractPort(FromString("localhost:80:90")) == Some(80)
  {
    assert "localhost:80:90" == "localhost" + ":" + "80" + ":90";
    ExtractPortFirstColonParts();
  }

  lemma ExtractPortFirstColonParts()
    ensures ExtractPort(FromString("localhost" + ":" + "80" + ":90")) == Some(80)
  {
    DecimalExamples();
    DiffersAt(":90", "://", 1);
    assert !OccursAt(":90", "://", 0) by { assert ":90"[0..3] == ":90"; }
    ExtractPortWithoutScheme("localhost", 80, ":90");
  }

  /** `localhost` has no port. */
  lemma ExtractPortNoColonExample()
    ensures ExtractPort(FromString("localhost")) == None
  {
    ExtractPortWithoutColon("localhost");
  }

  /** The secure addresses of the unit tests. */
  lemma IsSecureExamples()
    ensures IsSecure(FromString("https://api.example.com"))
    ensures IsSecure(FromString("wss://websocket.example.com"))
    ensures IsSecure(FromString("ftps://ftp.example.com"))
    ensures IsSecure(FromString("sftp://sftp.example.com"))
    ensures IsSecure(FromString("ssh://ssh.example.com"))
  {
    assert IsSecure(FromString("https://api.example.com")) by {
      assert "https://api.example.com"[..8] == "https://";
    }
    assert IsSecure(FromString("wss://websocket.example.com")) by {
      assert "wss://websocket.example.com"[..6] == "wss://";
    }
    assert IsSecure(FromString("ftps://ftp.example.com")) by {
      assert "ftps://ftp.example.com"[..7] == "ftps://";
    }
    assert IsSecure(FromString("sftp://sftp.example.com")) by {
      assert "sftp://sftp.example.com"[..7] == "sftp://";
    }
    assert IsSecure(FromString("ssh://ssh.example.com")) by {
      assert "ssh://ssh.example.com"[..6] == "ssh://";
    }
  }

  /**
   An address that is empty or whose first character is none of `h`, `w`,
   `f`, `s` (the first characters of the secure prefixes) is not secure.
   */
  lemma NotSecureByHead(s: string)
    requires |s| == 0 || s[0] !in "hwfs"
    ensures !IsSecure(FromString(s))
  {
    PrefixHead(s);
  }

  /** An address without any `://` is not secure: every secure prefix ends in `://`. */
  lemma SchemeLessNotSecure(s: string)
    requires !Contains(s, "://")
    ensures !IsSecure(FromString(s))
  {
    IsSecureIffSecureScheme(FromString(s));
  }

  /** `http://…` falls one character short of `https://`. */
  lemma HttpNotSecure(host: string)
    ensures !IsSecure(FromString("http://" + host))
  {
    var s := "http://" + host;
    assert s[..7] == "http://";
    DiffersAt(s, "https://", 4);
    DiffersAt(s, "wss://", 0);
    DiffersAt(s, "ftps://", 0);
    DiffersAt(s, "sftp://", 0);
    DiffersAt(s, "ssh://", 0);
  }

  /** `ws://…` falls one character short of `wss://`. */
  lemma WsNotSecure(host: string)
    ensures !IsSecure(FromString("ws://" + host))
  {
    var s := "ws://" + host;
    assert s[..5] == "ws://";
    DiffersAt(s, "https://", 0);
    DiffersAt(s, "wss://", 2);
    DiffersAt(s, "ftps://", 0);
    DiffersAt(s, "sftp://", 0);
    DiffersAt(s, "ssh://", 0);
  }

  /** `ftp://…` falls one character short of `ftps://`. */
  lemma FtpNotSecure(host: string)
    ensures !IsSecure(FromString("ftp://" + host))
  {
    var s := "ftp://" + host;
    assert s[..6] == "ftp://";
    DiffersAt(s, "https://", 0);
    DiffersAt(s, "wss://", 0);
    DiffersAt(s, "ftps://", 3);
    DiffersAt(s, "sftp://", 0);
    DiffersAt(s, "ssh://", 0);
  }

  /** The insecure addresses of the unit tests. */
  lemma IsNotSecureExamples()
    ensures !IsSecure(FromString("http://api.example.com"))
    ensures !IsSecure(FromString("ws://websocket.example.com"))
    ensures !IsSecure(FromString("ftp://ftp.example.com"))
    ensures !IsSecure(FromString("example.com"))
    ensures !IsSecure(FromString("localhost:8080"))
  {
    assert "http://api.example.com" == "http://" + "api.example.com";
    assert "ws://websocket.example.com" == "ws://" + "websocket.example.com";
    assert "ftp://ftp.example.com" == "ftp://" + "ftp.example.com";
    IsNotSecureParts();
  }

  lemma IsNotSecureParts()
    ensures !IsSecure(FromString("http://" + "api.example.com"))
    ensures !IsSecure(FromString("ws://" + "websocket.example.com"))
    ensures !IsSecure(FromString("ftp://" + "ftp.example.com"))
    ensures !IsSecure(FromString("example.com"))
    ensures !IsSecure(FromString("localhost:8080"))
  {
    HttpNotSecure("api.example.com");
    WsNotSecure("websocket.example.com");
    FtpNotSecure("ftp.example.com");
    NotSecureByHead("example.com");
    NotSecureByHead("localhost:8080");
  }
}
