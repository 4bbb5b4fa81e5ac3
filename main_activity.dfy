/** The string helpers of the main screen: the stream URL for an address
    and port, the label shown for it, and the build-property test for an
    emulator. `null` strings are `None`. */
module MainActivity {
  import opened Base
  import opened Text

  /** `TextUtils.isEmpty`: `null` or of length 0. */
  predicate IsEmpty(s: Option<string>)
  {
    s.None? || s.value == []
  }

  const HttpScheme: string := "http://"
  const UrlLabel: string := "Device URL: "
  const NoAddress: string := "N/A"
  const NoAddressLabel: string := "No LAN IP found"

  /** `buildHttp`: `"N/A"` without an address, otherwise
      `"http://" + ip + ":" + port + "/"`. */
  function BuildHttp(ip: Option<string>, port: int): (url: string)
    ensures IsEmpty(ip) ==> url == NoAddress
    ensures !IsEmpty(ip) ==> |url| > |HttpScheme| + 2 && url[..|HttpScheme|] == HttpScheme && url[|url| - 1] == '/'
  {
    if IsEmpty(ip) then NoAddress else HttpScheme + ip.value + ":" + IntToString(port) + "/"
  }

  /** The position of the last `c` in `s`, if any. */
  function LastIndexOf(s: string, c: char): (r: Option<nat>)
    ensures r.None? ==> c !in s
    ensures r.Some? ==> r.value < |s| && s[r.value] == c && c !in s[r.value + 1..]
    decreases |s|
  {
    if s == [] then None
    else if s[|s| - 1] == c then Some(|s| - 1)
    else
      var r := LastIndexOf(s[..|s| - 1], c);
      assert s[..|s| - 1] + [s[|s| - 1]] == s;
      if r.Some? then assert s[r.value + 1..] == s[..|s| - 1][r.value + 1..] + [s[|s| - 1]]; r else r
  }

  /** Reads an address and a port back from a stream URL: the text between
      `http://` and the final `/`, split at its last `:`. */
  function ParseHttpUrl(url: string): Option<(string, int)>
  {
    if |url| < |HttpScheme| + 1 || url[..|HttpScheme|] != HttpScheme || url[|url| - 1] != '/' then None
    else ParseHostPort(url[|HttpScheme|..|url| - 1])
  }

  /** An address of at least one character, a `:` and a decimal port. */
  function ParseHostPort(hostPort: string): Option<(string, int)>
  {
    match LastIndexOf(hostPort, ':')
    case None => None
    case Some(i) =>
      if i == 0 then None
      else
        match ParseInt(hostPort[i + 1..])
        case None => None
        case Some(port) => Some((hostPort[..i], port))
  }

  lemma LastIndexOfBeforeSuffix(a: string, c: char, b: string)
    requires c !in b
    ensures LastIndexOf(a + [c] + b, c) == Some(|a|)
  {
    var s := a + [c] + b;
    assert s[|a|] == c;
    assert s[|a| + 1..] == b;
  }

  /** A stream URL names its address and port: parsing it gives both back.
      Between the scheme and the final `/` the port is the part after the
      last `:`, since a decimal number has no `:`. */
  lemma ParseBuildHttp(ip: string, port: int)
    requires ip != []
    ensures ParseHttpUrl(BuildHttp(Some(ip), port)) == Some((ip, port))
  {
    var hostPort := ip + ":" + IntToString(port);
    var url := BuildHttp(Some(ip), port);
    assert url == HttpScheme + hostPort + "/";
    Between(HttpScheme, hostPort, "/");
    assert url[|HttpScheme|..|url| - 1] == hostPort;
    assert ParseHttpUrl(url) == ParseHostPort(hostPort);
    ParseHostPortOf(ip, port);
  }

  lemma Between(a: string, m: string, b: string)
    ensures (a + m + b)[..|a|] == a
    ensures (a + m + b)[|a|..|a + m + b| - |b|] == m
    ensures b != [] ==> (a + m + b)[|a + m + b| - 1] == b[|b| - 1]
  {
  }

  lemma ParseHostPortOf(ip: string, port: int)
    requires ip != []
    ensures ParseHostPort(ip + ":" + IntToString(port)) == Some((ip, port))
  {
    var digits := IntToString(port);
    var hostPort := ip + ":" + digits;
    assert hostPort == ip + [':'] + digits;
    LastIndexOfBeforeSuffix(ip, ':', digits);
    assert hostPort[|ip| + 1..] == digits;
    assert hostPort[..|ip|] == ip;
    ParseIntToString(port);
  }

  /** The placeholder for a missing address is not a stream URL. */
  lemma NoAddressIsNotAUrl(port: int)
    ensures ParseHttpUrl(BuildHttp(None, port)) == None
    ensures ParseHttpUrl(BuildHttp(Some([]), port)) == None
  {
  }

  /** `buildUiUrlText`: the label, then the URL for a non-empty address and
      `"No LAN IP found"` otherwise. */
  function BuildUiUrlText(ip: Option<string>, port: int): (text: string)
    ensures |text| > |UrlLabel| && text[..|UrlLabel|] == UrlLabel
    ensures IsEmpty(ip) ==> text[|UrlLabel|..] == NoAddressLabel
    ensures !IsEmpty(ip) ==> text[|UrlLabel|..] == BuildHttp(ip, port)
  {
    if !IsEmpty(ip) then UrlLabel + BuildHttp(ip, port) else UrlLabel + NoAddressLabel
  }

  /** The label carries the URL exactly when there is an address: after the
      label, parsing gives back address and port, or nothing. */
  lemma UiUrlTextNamesAddress(ip: Option<string>, port: int)
    ensures var text := BuildUiUrlText(ip, port);
      ParseHttpUrl(text[|UrlLabel|..]) == if IsEmpty(ip) then None else Some((ip.value, port))
  {
    if !IsEmpty(ip) {
      ParseBuildHttp(ip.value, port);
    } else {
      assert ParseHttpUrl(NoAddressLabel) == None by {
        assert NoAddressLabel[..|HttpScheme|] != HttpScheme by {
          assert NoAddressLabel[0] != HttpScheme[0];
        }
      }
    }
  }

  // ---------------------------------------------------------------------
  // Emulator detection

  /** The build properties the test reads (`Build.FINGERPRINT`, `MODEL`,
      `BRAND`, `PRODUCT`), each possibly `null`. */
  datatype BuildInfo = BuildInfo(fingerprint: Option<string>, model: Option<string>,
                                 brand: Option<string>, product: Option<string>)

  datatype BuildField = Fingerprint | Model | Brand | Product

  /** A property lower-cased, `""` for `null`. */
  function Lowered(s: Option<string>): (r: string)
    ensures s.None? ==> r == []
    ensures s.Some? ==> r == ToLowerAscii(s.value)
  {
    if s.None? then [] else ToLowerAscii(s.value)
  }

  function FieldText(build: BuildInfo, f: BuildField): string
  {
    match f
    case Fingerprint => Lowered(build.fingerprint)
    case Model => Lowered(build.model)
    case Brand => Lowered(build.brand)
    case Product => Lowered(build.product)
  }

  /** The eight substring tests, as (property, marker) pairs. */
  const EmulatorMarkers: seq<(BuildField, string)> := [
    (Fingerprint, "generic"), (Fingerprint, "ranchu"), (Fingerprint, "emulator"),
    (Model, "android sdk built for"), (Brand, "generic"),
    (Product, "sdk"), (Product, "emulator"), (Product, "google_sdk")
  ]

  /** `isProbablyEmulator`. */
  function IsProbablyEmulator(build: BuildInfo): bool
  {
    var fp, model, brand, product := Lowered(build.fingerprint), Lowered(build.model),
                                      Lowered(build.brand), Lowered(build.product);
    Contains(fp, "generic") || Contains(fp, "ranchu") || Contains(fp, "emulator")
    || Contains(model, "android sdk built for") || Contains(brand, "generic")
    || Contains(product, "sdk") || Contains(product, "emulator") || Contains(product, "google_sdk")
  }

  /** Some marker among the first `n` occurs in its lower-cased property. */
  predicate SomeMarkerAmong(build: BuildInfo, n: nat)
    requires n <= |EmulatorMarkers|
  {
    exists k :: 0 <= k < n && Contains(FieldText(build, EmulatorMarkers[k].0), EmulatorMarkers[k].1)
  }

  /** The test holds exactly when one of the eight markers occurs in its
      lower-cased property. */
  lemma EmulatorIffSomeMarker(build: BuildInfo)
    ensures IsProbablyEmulator(build) <==> SomeMarkerAmong(build, |EmulatorMarkers|)
  {
    var m := EmulatorMarkers;
    assert m[0] == (Fingerprint, "generic") && m[1] == (Fingerprint, "ranchu") && m[2] == (Fingerprint, "emulator");
    assert m[3] == (Model, "android sdk built for") && m[4] == (Brand, "generic");
    assert m[5] == (Product, "sdk") && m[6] == (Product, "emulator") && m[7] == (Product, "google_sdk");
    if SomeMarkerAmong(build, |m|) {
      var k :| 0 <= k < |m| && Contains(FieldText(build, m[k].0), m[k].1);
      assert k in {0, 1, 2, 3, 4, 5, 6, 7};
    }
  }

  /** The last test adds nothing: a product containing `google_sdk` contains
      `sdk`, so the first seven markers decide alone. */
  lemma GoogleSdkMarkerRedundant(build: BuildInfo)
    ensures IsProbablyEmulator(build) <==> SomeMarkerAmong(build, 7)
  {
    EmulatorIffSomeMarker(build);
    var product := FieldText(build, Product);
    if Contains(product, "google_sdk") {
      ContainsMiddle("google_", "sdk", "");
      assert "google_" + "sdk" + "" == "google_sdk";
      ContainsTransitive(product, "google_sdk", "sdk");
      assert EmulatorMarkers[5] == (Product, "sdk");
    }
    if SomeMarkerAmong(build, 7) {
      var k :| 0 <= k < 7 && Contains(FieldText(build, EmulatorMarkers[k].0), EmulatorMarkers[k].1);
      assert 0 <= k < |EmulatorMarkers|;
    }
  }

  /** Missing or empty properties never look like an emulator. */
  lemma BlankBuildIsNotEmulator(build: BuildInfo)
    requires IsEmpty(build.fingerprint) && IsEmpty(build.model) && IsEmpty(build.brand) && IsEmpty(build.product)
    ensures !IsProbablyEmulator(build)
  {
  }

  /** The test ignores letter case: lower-casing the properties first does
      not change its verdict. */
  lemma EmulatorIgnoresCase(build: BuildInfo)
    ensures var lower := BuildInfo(Some(Lowered(build.fingerprint)), Some(Lowered(build.model)),
                                   Some(Lowered(build.brand)), Some(Lowered(build.product)));
      IsProbablyEmulator(lower) == IsProbablyEmulator(build)
  {
    LoweredTwice(build.fingerprint);
    LoweredTwice(build.model);
    LoweredTwice(build.brand);
    LoweredTwice(build.product);
  }

  lemma LoweredTwice(s: Option<string>)
    ensures Lowered(Some(Lowered(s))) == Lowered(s)
  {
    ToLowerAsciiIdempotent(Lowered(s));
  }
}
