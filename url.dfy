/**
 * `Parser._validate_url`, identical in both copies of the uploader: the URL
 * is split on "://", the first piece must be an allowed scheme and every
 * "."-label of the second piece must satisfy `re.match` against
 * `([a-z\d-]{1,63})+` with IGNORECASE. Because `re.match` anchors only at the
 * start, that test comes down to "the label is non-empty and its first
 * character is a letter, a digit or '-'", which is proved below from a model
 * of the pattern's language.
 */
module UrlValidation {
  import opened Wrappers
  import opened Text
  import opened Errors

  const SchemeSeparator: string := "://"
  /** The schemes `allowed_protos` lists; the comparison is case-sensitive. */
  const AllowedProtos: seq<string> := ["http", "https"]

  /** The class `[a-z\d-]` under IGNORECASE, restricted to ASCII. */
  predicate IsHostChar(c: char)
  {
    ('a' <= c <= 'z') || ('A' <= c <= 'Z') || ('0' <= c <= '9') || c == '-'
  }

  ghost predicate AllHostChars(w: string)
  {
    forall i :: 0 <= i < |w| ==> IsHostChar(w[i])
  }

  /** `w` belongs to the language of `([a-z\d-]{1,63})+`: one or more runs of 1 to 63 class characters. */
  ghost predicate InPattern(w: string)
    decreases |w|
  {
    exists j :: 1 <= j <= 63 && j <= |w| && AllHostChars(w[..j]) && (j == |w| || InPattern(w[j..]))
  }

  /** The runs can be cut anywhere: the language is all non-empty words over the class. */
  lemma {:induction false} PatternLanguage(w: string)
    ensures InPattern(w) <==> |w| >= 1 && AllHostChars(w)
    decreases |w|
  {
    if InPattern(w) {
      var j :| 1 <= j <= 63 && j <= |w| && AllHostChars(w[..j]) && (j == |w| || InPattern(w[j..]));
      if j < |w| {
        PatternLanguage(w[j..]);
        forall i | 0 <= i < |w| ensures IsHostChar(w[i]) {
          if i < j { assert w[..j][i] == w[i]; } else { assert w[j..][i - j] == w[i]; }
        }
      } else {
        assert w[..j] == w;
      }
    }
    if |w| >= 1 && AllHostChars(w) {
      var j := if |w| <= 63 then |w| else 63;
      assert AllHostChars(w[..j]) by {
        forall i | 0 <= i < j ensures IsHostChar(w[..j][i]) { assert w[..j][i] == w[i]; }
      }
      if j < |w| {
        assert AllHostChars(w[j..]) by {
          forall i | 0 <= i < |w| - j ensures IsHostChar(w[j..][i]) { assert w[j..][i] == w[i + j]; }
        }
        PatternLanguage(w[j..]);
      }
    }
  }

  /** `re.match(pattern, part)` succeeds: some prefix of the label is in the pattern's language. */
  ghost predicate ReMatch(part: string)
  {
    exists n :: 0 <= n <= |part| && InPattern(part[..n])
  }

  /** The test `_validate_url` applies to each label: what `re.match` amounts to. */
  predicate LabelMatches(part: string)
    ensures LabelMatches(part) <==> ReMatch(part)
  {
    MatchIsFirstChar(part);
    |part| > 0 && IsHostChar(part[0])
  }

  /** An anchored-at-start match of the pattern exists exactly when the first character is in the class. */
  lemma MatchIsFirstChar(part: string)
    ensures ReMatch(part) <==> |part| > 0 && IsHostChar(part[0])
  {
    if ReMatch(part) {
      var n :| 0 <= n <= |part| && InPattern(part[..n]);
      PatternLanguage(part[..n]);
      assert part[..n][0] == part[0];
    }
    if |part| > 0 && IsHostChar(part[0]) {
      assert AllHostChars(part[..1]);
      PatternLanguage(part[..1]);
    }
  }

  /**
   * `all(host_validator.match(c) for c in hostname.split("."))`: a valid
   * hostname starts with a class character, and one without "." is a single
   * label. `HostnameValidIsRule` states the whole rule.
   */
  predicate HostnameValid(hostname: string)
    ensures HostnameValid(hostname) ==> |hostname| > 0 && IsHostChar(hostname[0])
    ensures !Contains(hostname, ".") ==> (HostnameValid(hostname) <==> LabelMatches(hostname))
  {
    var labels := Split(hostname, ".");
    FirstPieceIsPrefix(hostname, ".");
    forall i :: 0 <= i < |labels| ==> LabelMatches(labels[i])
  }

  /**
   * The same rule stated on characters: the hostname starts with a class
   * character and every "." is followed by one (so no label is empty and no
   * "." is last).
   */
  predicate HostnameRule(h: string)
  {
    |h| > 0 && IsHostChar(h[0]) &&
    forall i :: 0 <= i < |h| && h[i] == '.' ==> i + 1 < |h| && IsHostChar(h[i + 1])
  }

  /** Validating by labels and by characters agree on every hostname. */
  lemma {:induction false} HostnameValidIsRule(h: string)
    ensures HostnameValid(h) <==> HostnameRule(h)
    decreases |h|
  {
    match Find(h, ".")
    case None =>
      NoDotHostname(h);
    case Some(k) =>
      HostnameValidUnfold(h, k);
      HostnameRuleUnfold(h, k);
      HostnameValidIsRule(h[k + 1..]);
  }

  /** A hostname without "." is a single label. */
  lemma NoDotHostname(h: string)
    requires Find(h, ".").None?
    ensures HostnameValid(h) <==> LabelMatches(h)
    ensures HostnameRule(h) <==> LabelMatches(h)
  {
    var labels := Split(h, ".");
    assert labels == [h];
    assert HostnameValid(h) <==> LabelMatches(labels[0]);
    OccursAtChar(h, '.');
    forall i | 0 <= i < |h|
      ensures h[i] != '.'
    {
      assert !OccursAt(h, ".", i);
    }
  }

  /** Validating by labels: the first label, then the rest after the first ".". */
  lemma HostnameValidUnfold(h: string, k: nat)
    requires Find(h, ".") == Some(k)
    ensures HostnameValid(h) <==> LabelMatches(h[..k]) && HostnameValid(h[k + 1..])
  {
    var labels := Split(h, ".");
    var rest := Split(h[k + 1..], ".");
    assert labels == [h[..k]] + rest;
    assert forall i :: 1 <= i < |labels| ==> labels[i] == rest[i - 1];
    if LabelMatches(h[..k]) && HostnameValid(h[k + 1..]) {
      forall i | 0 <= i < |labels| ensures LabelMatches(labels[i]) {
        if i > 0 { assert labels[i] == rest[i - 1]; }
      }
    }
    if HostnameValid(h) {
      forall i | 0 <= i < |rest| ensures LabelMatches(rest[i]) {
        assert labels[i + 1] == rest[i];
      }
    }
  }

  /** Validating by characters: the text before the first ".", then the text after it. */
  lemma HostnameRuleUnfold(h: string, k: nat)
    requires Find(h, ".") == Some(k)
    ensures HostnameRule(h) <==> LabelMatches(h[..k]) && HostnameRule(h[k + 1..])
  {
    var rest := h[k + 1..];
    assert h[k] == '.' by { assert h[k..k + 1] == "."; }
    OccursAtChar(h, '.');
    if HostnameRule(h) {
      assert k > 0;
      assert rest[0] == h[k + 1];
      forall i | 0 <= i < |rest| && rest[i] == '.' ensures i + 1 < |rest| && IsHostChar(rest[i + 1]) {
        assert h[k + 1 + i] == '.';
      }
    }
    if LabelMatches(h[..k]) && HostnameRule(rest) {
      forall i | 0 <= i < |h| && h[i] == '.' ensures i + 1 < |h| && IsHostChar(h[i + 1]) {
        if i > k { assert rest[i - k - 1] == '.'; }
      }
    }
  }

  /** The text before the first occurrence of `pat`, or all of `s` when there is none. */
  function BeforeFirst(s: string, pat: string): string
    requires |pat| > 0
  {
    match Find(s, pat)
    case None => s
    case Some(j) => s[..j]
  }

  /**
   * The URLs the validator accepts, stated on positions: the text before the
   * first "://" is exactly "http" or "https", and the text between the first
   * and the second "://" (or the end) obeys `HostnameRule`.
   */
  predicate UrlAccepted(url: string)
  {
    match Find(url, SchemeSeparator)
    case None => false
    case Some(k) =>
      url[..k] in AllowedProtos && HostnameRule(BeforeFirst(url[k + 3..], SchemeSeparator))
  }

  /**
   * `_validate_url`: `None` when the URL is accepted, otherwise the exception it raises.
   */
  function UrlCheck(url: string): (r: Option<UploadError>)
    ensures r == Some(MalformedArgument) <==> !Contains(url, SchemeSeparator)
    ensures r == None <==> UrlAccepted(url)
    ensures r == Some(InvalidPath) <==> Contains(url, SchemeSeparator) && !UrlAccepted(url)
  {
    var components := Split(url, SchemeSeparator);
    if |components| < 2 then Some(MalformedArgument)
    else
      SchemeAndHost(url);
      HostnameValidIsRule(components[1]);
      if components[0] in AllowedProtos && HostnameValid(components[1]) then None
      else Some(InvalidPath)
  }

  /** `s` holds no ':'. */
  predicate NoColon(s: string)
  {
    forall i :: 0 <= i < |s| ==> s[i] != ':'
  }

  /** Text without ':' cannot contain "://". */
  lemma NoColonNoSeparator(s: string)
    requires NoColon(s)
    ensures !Contains(s, SchemeSeparator)
  {
    forall k | 0 <= k <= |s| ensures !OccursAt(s, SchemeSeparator, k) {
      if k + 3 <= |s| {
        assert s[k..k + 3][0] == s[k];
        assert s[k] != ':';
      }
    }
  }

  /** A single ':' that is not followed by '/' does not start a "://" either. */
  lemma OneColonNoSeparator(a: string, b: string)
    requires NoColon(a) && NoColon(b) && |b| > 0 && b[0] != '/'
    ensures !Contains(a + ":" + b, SchemeSeparator)
  {
    var s := a + ":" + b;
    forall k | 0 <= k <= |s| ensures !OccursAt(s, SchemeSeparator, k) {
      if k + 3 <= |s| {
        assert s[k..k + 3][0] == s[k];
        assert s[k..k + 3][1] == s[k + 1];
        if k < |a| {
          assert s[k] == a[k];
        } else if k > |a| {
          assert s[k] == b[k - |a| - 1];
        } else {
          assert s[k + 1] == b[0];
        }
      }
    }
  }

  /**
   * A URL written as scheme, "://", host, with no ':' in the scheme and no
   * further "://" in the host, is accepted exactly when the scheme is one of
   * the allowed two, compared case-sensitively, and the host obeys the
   * hostname rule.
   */
  lemma UrlOfParts(scheme: string, host: string)
    requires NoColon(scheme) && !Contains(host, SchemeSeparator)
    ensures Contains(scheme + SchemeSeparator + host, SchemeSeparator)
    ensures UrlAccepted(scheme + SchemeSeparator + host) <==> scheme in AllowedProtos && HostnameRule(host)
    ensures UrlCheck(scheme + SchemeSeparator + host) ==
      if scheme in AllowedProtos && HostnameRule(host) then None else Some(InvalidPath)
  {
    var url := scheme + SchemeSeparator + host;
    var k := |scheme|;
    assert url[k..k + 3] == SchemeSeparator;
    assert OccursAt(url, SchemeSeparator, k);
    forall j | 0 <= j < k ensures !OccursAt(url, SchemeSeparator, j) {
      assert url[j..j + 3][0] == url[j] == scheme[j];
      assert scheme[j] != ':';
    }
    assert Find(url, SchemeSeparator) == Some(k);
    assert url[..k] == scheme;
    assert url[k + 3..] == host;
    assert BeforeFirst(host, SchemeSeparator) == host;
  }

  /** The first two "://"-pieces of a URL are its scheme and its host part as `UrlAccepted` reads them. */
  lemma SchemeAndHost(url: string)
    requires Contains(url, SchemeSeparator)
    ensures var k := Find(url, SchemeSeparator).value;
      |Split(url, SchemeSeparator)| >= 2 &&
      Split(url, SchemeSeparator)[0] == url[..k] &&
      Split(url, SchemeSeparator)[1] == BeforeFirst(url[k + 3..], SchemeSeparator)
  {
    var k := Find(url, SchemeSeparator).value;
    assert Split(url, SchemeSeparator) == [url[..k]] + Split(url[k + 3..], SchemeSeparator);
  }

  /** A label made of class characters only (so without '.' and ':'). */
  predicate PlainLabel(part: string)
  {
    |part| > 0 && forall i :: 0 <= i < |part| ==> IsHostChar(part[i])
  }

  /** A plain label is a hostname on its own. */
  lemma SingleLabel(part: string)
    requires PlainLabel(part)
    ensures HostnameRule(part) && NoColon(part)
  {
  }

  /** Appending "." and a plain label keeps a hostname a hostname. */
  lemma AppendLabel(host: string, part: string)
    requires HostnameRule(host) && NoColon(host) && PlainLabel(part)
    ensures HostnameRule(host + "." + part) && NoColon(host + "." + part)
  {
    var h := host + "." + part;
    forall i | 0 <= i < |h|
      ensures h[i] != ':' && (h[i] == '.' ==> i + 1 < |h| && IsHostChar(h[i + 1]))
    {
      if i < |host| {
        assert h[i] == host[i];
        if i + 1 < |host| {
          assert h[i + 1] == host[i + 1];
        }
      } else if i > |host| {
        assert h[i] == part[i - |host| - 1];
      } else {
        assert h[i + 1] == part[0];
      }
    }
  }

  /** Text without '.' after a hostname adds nothing the rule looks at. */
  lemma AppendWithoutDot(host: string, tail: string)
    requires HostnameRule(host) && forall i :: 0 <= i < |tail| ==> tail[i] != '.'
    ensures HostnameRule(host + tail)
  {
    var h := host + tail;
    forall i | 0 <= i < |h|
      ensures h[i] == '.' ==> i + 1 < |h| && IsHostChar(h[i + 1])
    {
      if i >= |host| {
        assert h[i] == tail[i - |host|];
      } else if host[i] == '.' {
        assert h[i] == host[i] && h[i + 1] == host[i + 1];
      } else {
        assert h[i] == host[i];
      }
    }
  }

  /** The host of the examples, "sig.example.com". */
  lemma ExampleHost()
    ensures HostnameRule("sig" + "." + "example" + "." + "com")
    ensures NoColon("sig" + "." + "example" + "." + "com")
  {
    SingleLabel("sig");
    AppendLabel("sig", "example");
    AppendLabel("sig" + "." + "example", "com");
  }

  /** An allowed scheme and a dotted host of ordinary labels pass. */
  lemma AcceptedUrlExample()
    ensures UrlCheck("https" + SchemeSeparator + "sig.example.com") == None
  {
    ExampleHost();
    assert "sig" + "." + "example" + "." + "com" == "sig.example.com";
    NoColonNoSeparator("sig.example.com");
    UrlOfParts("https", "sig.example.com");
  }

  /** The scheme is compared case-sensitively. */
  lemma UpperCaseSchemeRefused()
    ensures UrlCheck("HTTP" + SchemeSeparator + "sig.example.com") == Some(InvalidPath)
  {
    ExampleHost();
    assert "sig" + "." + "example" + "." + "com" == "sig.example.com";
    NoColonNoSeparator("sig.example.com");
    UrlOfParts("HTTP", "sig.example.com");
  }

  /** An empty part between two dots fails the part test. */
  lemma EmptyLabelRefused()
    ensures UrlCheck("http" + SchemeSeparator + "a..b") == Some(InvalidPath)
  {
    assert NoColon("http") && NoColon("a..b");
    assert "a..b"[1] == '.' && !IsHostChar("a..b"[2]);
    NoColonNoSeparator("a..b");
    UrlOfParts("http", "a..b");
  }

  /** A trailing dot leaves an empty last part. */
  lemma TrailingDotRefused()
    ensures UrlCheck("http" + SchemeSeparator + "a.b.") == Some(InvalidPath)
  {
    assert NoColon("http") && NoColon("a.b.");
    assert "a.b."[3] == '.' && |"a.b."| == 4;
    NoColonNoSeparator("a.b.");
    UrlOfParts("http", "a.b.");
  }

  /** Nothing after "://" is no hostname: its one part is empty. */
  lemma EmptyHostRefused()
    ensures UrlCheck("http" + SchemeSeparator) == Some(InvalidPath)
  {
    assert NoColon("http") && NoColon("");
    NoColonNoSeparator("");
    UrlOfParts("http", "");
    assert "http" + SchemeSeparator + "" == "http" + SchemeSeparator;
  }

  /** A port and a path after the host pass: only the first character of each label is looked at. */
  lemma PortAndPathAccepted()
    ensures UrlCheck("https" + SchemeSeparator + "sig.example.com" + ":" + "8080/x") == None
  {
    var host := "sig.example.com" + ":" + "8080/x";
    HostWithPort();
    assert NoColon("https");
    UrlOfParts("https", host);
    assert "https" + SchemeSeparator + host == "https" + SchemeSeparator + "sig.example.com" + ":" + "8080/x";
  }

  /** The host part "sig.example.com:8080/x" obeys the rule and holds no "://". */
  lemma HostWithPort()
    ensures HostnameRule("sig.example.com" + ":" + "8080/x")
    ensures !Contains("sig.example.com" + ":" + "8080/x", SchemeSeparator)
  {
    var name := "sig.example.com";
    ExampleHost();
    assert "sig" + "." + "example" + "." + "com" == name;
    assert NoColon("8080/x");
    OneColonNoSeparator(name, "8080/x");
    AppendWithoutDot(name, ":" + "8080/x");
    assert name + ":" + "8080/x" == name + (":" + "8080/x");
  }

  /** The `-r` default of both uploaders, "http://signature.apps.kubernetes.local", written by its parts. */
  const DefaultRepoUrl: string :=
    "http" + SchemeSeparator + ("signature" + "." + "apps" + "." + "kubernetes" + "." + "local")

  lemma DefaultUrlAccepted()
    ensures UrlCheck(DefaultRepoUrl) == None
  {
    var host := "signature" + "." + "apps" + "." + "kubernetes" + "." + "local";
    SingleLabel("signature");
    AppendLabel("signature", "apps");
    AppendLabel("signature" + "." + "apps", "kubernetes");
    AppendLabel("signature" + "." + "apps" + "." + "kubernetes", "local");
    NoColonNoSeparator(host);
    assert NoColon("http");
    UrlOfParts("http", host);
  }
}
