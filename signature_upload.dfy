/**
 * The client uploader (clients/signature-upload.py): options, the
 * validation pipeline of `Parser.parse` with its fixed check order, the
 * configuration it assembles, and the one request the top level issues,
 * either a POST of the base64 payload or, with `--nexus`, a PUT of the raw
 * file to a Nexus3 RAW repository.
 *
 * `os.path.exists` is the parameter `pathExists`; the file's octets are the
 * parameter `contents`.
 */
module SignatureUpload {
  import opened Wrappers
  import opened Bytes
  import opened Text
  import opened Errors
  import opened UrlValidation
  import opened PathPayload
  import opened Outcomes

  /** The options as typed: each one given or not. */
  datatype CommandLine = CommandLine(
    repoUrl: Option<string>,       // -r / --repo_url
    absolutePath: Option<string>,  // -a / --absolute-path
    noVerify: bool,                // --no-verify
    nexus: bool,                   // --nexus
    username: Option<string>,      // -u / --username
    password: Option<string>,      // -p / --password
    sigstoreName: Option<string>)  // -s / --sigstore-name

  /**
   * The namespace argparse returns. With `argument_default=SUPPRESS` an
   * option that was not given is an absent attribute (here `None`), not an
   * empty string, except for the three that have defaults.
   */
  datatype Arguments = Arguments(
    repoUrl: string,
    sigPath: Option<string>,
    sslVerify: bool,
    uploadToNexus: bool,
    username: Option<string>,
    password: Option<string>,
    sigstoreName: Option<string>)

  /** The defaults of the option table: a usable URL, verification on, direct upload. */
  function ParseArguments(cl: CommandLine): (a: Arguments)
    ensures cl.repoUrl.None? ==> a.repoUrl == DefaultRepoUrl && UrlCheck(a.repoUrl) == None
    ensures cl.repoUrl.Some? ==> a.repoUrl == cl.repoUrl.value
    ensures a.sslVerify <==> !cl.noVerify
    ensures a.uploadToNexus <==> cl.nexus
    ensures a.sigPath == cl.absolutePath && a.sigstoreName == cl.sigstoreName
    ensures a.username == cl.username && a.password == cl.password
  {
    DefaultUrlAccepted();
    Arguments(
      if cl.repoUrl.Some? then cl.repoUrl.value else DefaultRepoUrl,
      cl.absolutePath, !cl.noVerify, cl.nexus, cl.username, cl.password, cl.sigstoreName)
  }

  /** The configuration `parse` hands on; the wrapper object of the source, typed. */
  datatype Config = Config(
    repoUrl: string,
    sigFile: string,
    sslVerify: bool,
    uploadToNexus: bool,
    sigstoreName: Option<string>,
    credentials: Option<Credentials>)

  /** A value in the dictionary `parse` fills. */
  datatype Value = StrValue(str: string) | BoolValue(flag: bool)

  /** The four keys `parse` writes on every successful validation. */
  function BaseEntries(repoUrl: string, sigFile: string, sslVerify: bool, uploadToNexus: bool): map<string, Value>
  {
    map["repo_url" := StrValue(repoUrl), "sig_file" := StrValue(sigFile),
        "ssl_verify" := BoolValue(sslVerify), "upload_to_nexus" := BoolValue(uploadToNexus)]
  }

  /** The dictionary a configuration is wrapped from. */
  function Entries(c: Config): map<string, Value>
  {
    var base := BaseEntries(c.repoUrl, c.sigFile, c.sslVerify, c.uploadToNexus);
    var withStore := if c.sigstoreName.Some? then base["sigstore_name" := StrValue(c.sigstoreName.value)] else base;
    if c.credentials.Some? then
      withStore["username" := StrValue(c.credentials.value.username)]["password" := StrValue(c.credentials.value.password)]
    else withStore
  }

  /**
   * The wrapper exposes every field of the configuration: the four base keys
   * always, `sigstore_name` with a sigstore name, `username` and `password`
   * with credentials, and no other key; each key holds its field.
   */
  lemma EntriesFields(c: Config)
    ensures var m := Entries(c);
      m.Keys == {"repo_url", "sig_file", "ssl_verify", "upload_to_nexus"} +
        (if c.sigstoreName.Some? then {"sigstore_name"} else {}) +
        (if c.credentials.Some? then {"username", "password"} else {})
    ensures var m := Entries(c);
      m["repo_url"] == StrValue(c.repoUrl) && m["sig_file"] == StrValue(c.sigFile) &&
      m["ssl_verify"] == BoolValue(c.sslVerify) && m["upload_to_nexus"] == BoolValue(c.uploadToNexus)
    ensures c.sigstoreName.Some? ==> Entries(c)["sigstore_name"] == StrValue(c.sigstoreName.value)
    ensures c.credentials.Some? ==>
      Entries(c)["username"] == StrValue(c.credentials.value.username) &&
      Entries(c)["password"] == StrValue(c.credentials.value.password)
  {
  }

  /**
   * `Parser.parse`: the sig_path check, then the URL, then the file's
   * existence, then (Nexus only) the sigstore name. The ensures state which
   * error each input gets in terms of the URL rule and the oracle, so the
   * order of the checks is visible in them.
   */
  function ParseResult(args: Arguments, pathExists: string -> bool): (r: Result<Config, UploadError>)
    ensures args.sigPath.None? ==> r == Err(MissingArgument)
    ensures r == Err(MalformedArgument) <==> args.sigPath.Some? && !Contains(args.repoUrl, SchemeSeparator)
    ensures r == Err(InvalidPath) <==>
      args.sigPath.Some? && Contains(args.repoUrl, SchemeSeparator) &&
      (!UrlAccepted(args.repoUrl) || !pathExists(args.sigPath.value))
    ensures r == Err(MissingArgument) <==>
      args.sigPath.None? ||
      (UrlAccepted(args.repoUrl) && pathExists(args.sigPath.value) && args.uploadToNexus && args.sigstoreName.None?)
    ensures r.Ok? <==>
      args.sigPath.Some? && UrlAccepted(args.repoUrl) && pathExists(args.sigPath.value) &&
      (args.uploadToNexus ==> args.sigstoreName.Some?)
    ensures r.Ok? ==>
      r.value.repoUrl == args.repoUrl && r.value.sigFile == args.sigPath.value &&
      r.value.sslVerify == args.sslVerify && r.value.uploadToNexus == args.uploadToNexus
    ensures r.Ok? ==> r.value.sigstoreName == (if args.uploadToNexus then args.sigstoreName else None)
    ensures r.Ok? ==>
      (r.value.credentials.Some? <==> args.uploadToNexus && args.username.Some? && args.password.Some?)
    ensures r.Ok? && r.value.credentials.Some? ==>
      r.value.credentials.value == Credentials(args.username.value, args.password.value)
  {
    if args.sigPath.None? then Err(MissingArgument)
    else match UrlCheck(args.repoUrl)
      case Some(e) => Err(e)
      case None =>
        if !pathExists(args.sigPath.value) then Err(InvalidPath)
        else if args.uploadToNexus && args.sigstoreName.None? then Err(MissingArgument)
        else
          var credentials :=
            if args.uploadToNexus && args.username.Some? && args.password.Some?
            then Some(Credentials(args.username.value, args.password.value)) else None;
          Ok(Config(args.repoUrl, args.sigPath.value, args.sslVerify, args.uploadToNexus,
                    if args.uploadToNexus then args.sigstoreName else None, credentials))
  }

  /**
   * The parser object: the validators store the values they accept as
   * attributes, and `Parse` fills the wrapper dictionary key by key.
   */
  class Parser {
    const parsedArguments: Arguments
    var repoUrl: Option<string>
    var sigFile: Option<string>
    var wrapper: map<string, Value>

    constructor (args: Arguments)
      ensures parsedArguments == args
      ensures repoUrl == None && sigFile == None && wrapper == map[]
    {
      parsedArguments := args;
      repoUrl := None;
      sigFile := None;
      wrapper := map[];
    }

    /** `_validate_path`: refuses a path the file system does not have, otherwise records it. */
    method ValidatePath(pathExists: string -> bool) returns (err: Option<UploadError>)
      requires parsedArguments.sigPath.Some?
      modifies this`sigFile
      ensures err.None? <==> pathExists(parsedArguments.sigPath.value)
      ensures err.Some? ==> err.value == InvalidPath
      ensures sigFile == if err.None? then parsedArguments.sigPath else old(sigFile)
    {
      if !pathExists(parsedArguments.sigPath.value) {
        return Some(InvalidPath);
      }
      sigFile := parsedArguments.sigPath;
      return None;
    }

    /** `_validate_url`: the URL check; an accepted URL is recorded. */
    method ValidateUrl() returns (err: Option<UploadError>)
      modifies this`repoUrl
      ensures err == UrlCheck(parsedArguments.repoUrl)
      ensures repoUrl == if err.None? then Some(parsedArguments.repoUrl) else old(repoUrl)
    {
      err := UrlCheck(parsedArguments.repoUrl);
      if err.None? {
        repoUrl := Some(parsedArguments.repoUrl);
      }
    }

    /**
     * `parse`. On success the dictionary holds exactly the configuration's
     * entries; when only the sigstore name is missing, the four keys written
     * before that check are left in it.
     */
    method Parse(pathExists: string -> bool) returns (r: Result<Config, UploadError>)
      modifies this
      ensures r == ParseResult(parsedArguments, pathExists)
      ensures r.Ok? ==> wrapper == Entries(r.value)
      ensures repoUrl ==
        if parsedArguments.sigPath.Some? && UrlCheck(parsedArguments.repoUrl).None?
        then Some(parsedArguments.repoUrl) else old(repoUrl)
      ensures sigFile ==
        if parsedArguments.sigPath.Some? && UrlCheck(parsedArguments.repoUrl).None? &&
           pathExists(parsedArguments.sigPath.value)
        then parsedArguments.sigPath else old(sigFile)
      ensures r.Err? ==>
        wrapper == (if parsedArguments.sigPath.Some? && r.error == MissingArgument
         then BaseEntries(parsedArguments.repoUrl, parsedArguments.sigPath.value,
                          parsedArguments.sslVerify, parsedArguments.uploadToNexus)
         else map[])
    {
      wrapper := map[];
      if parsedArguments.sigPath.None? {
        return Err(MissingArgument);
      }
      var urlError := ValidateUrl();
      if urlError.Some? {
        return Err(urlError.value);
      }
      var pathError := ValidatePath(pathExists);
      if pathError.Some? {
        return Err(pathError.value);
      }
      wrapper := wrapper["repo_url" := StrValue(repoUrl.value)];
      wrapper := wrapper["sig_file" := StrValue(sigFile.value)];
      wrapper := wrapper["ssl_verify" := BoolValue(parsedArguments.sslVerify)];
      wrapper := wrapper["upload_to_nexus" := BoolValue(parsedArguments.uploadToNexus)];
      var credentials: Option<Credentials> := None;
      if parsedArguments.uploadToNexus {
        if parsedArguments.sigstoreName.Some? {
          wrapper := wrapper["sigstore_name" := StrValue(parsedArguments.sigstoreName.value)];
        } else {
          return Err(MissingArgument);
        }
        if parsedArguments.username.Some? && parsedArguments.password.Some? {
          wrapper := wrapper["username" := StrValue(parsedArguments.username.value)];
          wrapper := wrapper["password" := StrValue(parsedArguments.password.value)];
          credentials := Some(Credentials(parsedArguments.username.value, parsedArguments.password.value));
        }
      }
      r := Ok(Config(repoUrl.value, sigFile.value, parsedArguments.sslVerify, parsedArguments.uploadToNexus,
                     if parsedArguments.uploadToNexus then parsedArguments.sigstoreName else None, credentials));
    }
  }

  /** In the dictionary of a successful parse, username and password come together, and only in Nexus mode. */
  lemma WrapperKeys(args: Arguments, pathExists: string -> bool)
    requires ParseResult(args, pathExists).Ok?
    ensures var w := Entries(ParseResult(args, pathExists).value);
      ("username" in w <==> "password" in w) &&
      ("username" in w <==> args.uploadToNexus && args.username.Some? && args.password.Some?) &&
      ("sigstore_name" in w <==> args.uploadToNexus) &&
      {"repo_url", "sig_file", "ssl_verify", "upload_to_nexus"} <= w.Keys
  {
  }

  /**
   * `"%s/repository/%s/%s/%s/signature-1" % (repo_url, sigstore_name, params[0], params[1])`.
   * The target starts with the repository URL, unnormalised, then
   * `/repository/<store>/`; it ends with `/signature-1`; what lies between is
   * the first two path components joined by "/".
   */
  function NexusUrl(repoUrl: string, sigstoreName: string, sigFile: string): (url: string)
    requires Contains(sigFile, "/")
    ensures var prefix := repoUrl + "/repository/" + sigstoreName + "/";
      |prefix| + |NexusLeaf| <= |url| &&
      url[..|prefix|] == prefix && url[|url| - |NexusLeaf|..] == NexusLeaf &&
      url[|prefix|..|url| - |NexusLeaf|] == Join(PathComponents(sigFile)[..2], "/")
  {
    var c := PathComponents(sigFile);
    repoUrl + "/repository/" + sigstoreName + "/" + c[0] + "/" + c[1] + NexusLeaf
  }

  /** The fixed last segment of every Nexus target. */
  const NexusLeaf: string := "/signature-1"

  /**
   * For a two-segment path `a/f` the file name is the layer id, so it does
   * reach the target URL.
   */
  lemma NexusUrlOfTwoSegments(repoUrl: string, sigstoreName: string, a: string, f: string)
    requires NoSlash(a) && NoSlash(f)
    ensures Contains(a + "/" + f, "/")
    ensures NexusUrl(repoUrl, sigstoreName, a + "/" + f) ==
      repoUrl + "/repository/" + sigstoreName + "/" + a + "/" + f + "/signature-1"
  {
    TwoSegmentPathComponents(a, f);
  }

  /** For `dir/a/b/f` the target is the repository URL, unchanged, followed by the RAW layout path of `a` and `b`. */
  lemma NexusUrlOfDeepPath(repoUrl: string, sigstoreName: string, dir: string, a: string, b: string, f: string)
    requires NoSlash(a) && NoSlash(b) && NoSlash(f)
    ensures Contains(dir + "/" + a + "/" + b + "/" + f, "/")
    ensures NexusUrl(repoUrl, sigstoreName, dir + "/" + a + "/" + b + "/" + f) ==
      repoUrl + "/repository/" + sigstoreName + "/" + a + "/" + b + "/signature-1"
  {
    DeepPathComponents(dir, a, b, f);
  }

  /**
   * When the directory path itself contains a "/", the file name does not reach
   * the target URL: two files in that directory go to the same place.
   */
  lemma NexusUrlIgnoresFileName(repoUrl: string, sigstoreName: string, dir: string, f: string, g: string)
    requires Contains(dir, "/") && NoSlash(f) && NoSlash(g)
    ensures Contains(dir + "/" + f, "/") && Contains(dir + "/" + g, "/")
    ensures NexusUrl(repoUrl, sigstoreName, dir + "/" + f) == NexusUrl(repoUrl, sigstoreName, dir + "/" + g)
  {
    LastSegmentsOfDirectory(dir, f);
    LastSegmentsOfDirectory(dir, g);
    var cf := PathComponents(dir + "/" + f);
    var cg := PathComponents(dir + "/" + g);
    assert cf[0] == cf[..2][0] == cg[..2][0] == cg[0];
    assert cf[1] == cf[..2][1] == cg[..2][1] == cg[1];
  }

  /**
   * The top level: parse, then (Nexus) a PUT of the raw file to the RAW
   * layout URL with Basic auth exactly when both credentials were parsed, or
   * (direct) a POST of the base64 payload. A path with a single segment makes
   * `params[1]` / `path_components[1]` raise IndexError, which nothing catches.
   */
  function Run(args: Arguments, pathExists: string -> bool, contents: seq<byte>): (out: Outcome)
    ensures out.Failed? <==> ParseResult(args, pathExists).Err?
    ensures out.Failed? ==> out.error == ParseResult(args, pathExists).error
    ensures out.Crashed? <==> ParseResult(args, pathExists).Ok? && !Contains(args.sigPath.value, "/")
    ensures out.Sent? ==> (out.request.Put? <==> args.uploadToNexus) && out.request.verify == args.sslVerify
  {
    match ParseResult(args, pathExists)
    case Err(e) => Failed(e)
    case Ok(config) =>
      if !Contains(config.sigFile, "/") then Crashed
      else if config.uploadToNexus then
        Sent(Put(NexusUrl(config.repoUrl, config.sigstoreName.value, config.sigFile),
                 contents, config.credentials, config.sslVerify))
      else
        Sent(Post(config.repoUrl, BuildPayload(config.sigFile, contents), config.sslVerify))
  }

  /** Without `--nexus` a valid run posts, to the URL as given, fields that decode to the path components and the exact file octets. */
  lemma RunPost(args: Arguments, pathExists: string -> bool, contents: seq<byte>)
    ensures var out := Run(args, pathExists, contents);
      (out.Sent? && out.request.Post?) <==>
        !args.uploadToNexus && ParseResult(args, pathExists).Ok? && Contains(args.sigPath.value, "/")
    ensures var out := Run(args, pathExists, contents);
      out.Sent? && out.request.Post? ==>
        var rq := out.request;
        var c := PathComponents(args.sigPath.value);
        rq.url == args.repoUrl && rq.verify == args.sslVerify &&
        DecodeText(rq.payload.repoName) == Some(c[0]) &&
        DecodeText(rq.payload.layerId) == Some(c[1]) &&
        Base64.Decode(rq.payload.signatureData) == Some(contents)
  {
  }

  /** With `--nexus` a valid run puts the raw octets, with Basic auth exactly when both username and password were given. */
  lemma RunPut(args: Arguments, pathExists: string -> bool, contents: seq<byte>)
    ensures var out := Run(args, pathExists, contents);
      (out.Sent? && out.request.Put?) <==>
        args.uploadToNexus && ParseResult(args, pathExists).Ok? && Contains(args.sigPath.value, "/")
    ensures var out := Run(args, pathExists, contents);
      out.Sent? && out.request.Put? ==>
        args.sigstoreName.Some? &&
        var rq := out.request;
        rq.url == NexusUrl(args.repoUrl, args.sigstoreName.value, args.sigPath.value) &&
        rq.data == contents && rq.verify == args.sslVerify &&
        (rq.auth.Some? <==> args.username.Some? && args.password.Some?) &&
        (rq.auth.Some? ==> rq.auth.value == Credentials(args.username.value, args.password.value))
  {
  }

  /**
   * The exit status of a run: 3 exactly for a URL without "://", 2 exactly for
   * a refused URL or a missing file, 0 exactly when a request goes out, and 1
   * otherwise: a missing option, or a one-segment path.
   */
  lemma RunExitStatus(args: Arguments, pathExists: string -> bool, contents: seq<byte>)
    ensures var code := ExitStatus(Run(args, pathExists, contents));
      (code == 3 <==> args.sigPath.Some? && !Contains(args.repoUrl, SchemeSeparator)) &&
      (code == 2 <==> args.sigPath.Some? && Contains(args.repoUrl, SchemeSeparator) &&
                      (!UrlAccepted(args.repoUrl) || !pathExists(args.sigPath.value))) &&
      (code == 0 <==> ParseResult(args, pathExists).Ok? && Contains(args.sigPath.value, "/")) &&
      (code == 1 <==> Run(args, pathExists, contents) == Failed(MissingArgument) || Run(args, pathExists, contents) == Crashed)
  {
  }

  /** An example signature path, `/data/sigstore/myrepo/layer123/signature-1`, by its segments. */
  const ExamplePath: string := "/data/sigstore" + "/" + ExampleRepo + "/" + ExampleLayer + "/" + "signature-1"

  /** The example server, "https://sig.example.com". */
  const ExampleUrl: string := "https" + SchemeSeparator + "sig.example.com"

  lemma ExamplePathComponents()
    ensures PathComponents(ExamplePath) == [ExampleRepo, ExampleLayer, "signature-1"]
  {
    assert NoSlash(ExampleRepo) && NoSlash(ExampleLayer) && NoSlash("signature-1");
    DeepPathComponents("/data/sigstore", ExampleRepo, ExampleLayer, "signature-1");
  }

  /** A direct upload of the example file posts "myrepo" and "layer123" in base64, and the file's octets. */
  lemma ExampleDirectUpload(pathExists: string -> bool, contents: seq<byte>)
    requires pathExists(ExamplePath)
    ensures Run(Arguments(ExampleUrl, Some(ExamplePath), true, false, None, None, None), pathExists, contents) ==
      Sent(Post(ExampleUrl, Payload("bXly" + "ZXBv", "bGF5" + "ZXIx" + "MjM=", Base64.Encode(contents)), true))
  {
    var args := Arguments(ExampleUrl, Some(ExamplePath), true, false, None, None, None);
    ExamplePathComponents();
    AcceptedUrlExample();
    assert ParseResult(args, pathExists) == Ok(Config(ExampleUrl, ExamplePath, true, false, None, None));
    ExampleRepoField();
    ExampleLayerField();
    assert BuildPayload(ExamplePath, contents) ==
      Payload("bXly" + "ZXBv", "bGF5" + "ZXIx" + "MjM=", Base64.Encode(contents));
  }

  /**
   * The same file sent to Nexus store "raw-sigs" goes to the RAW layout URL
   * with the file name replaced; a username without a password sends no
   * credentials.
   */
  lemma ExampleNexusUpload(pathExists: string -> bool, contents: seq<byte>)
    requires pathExists(ExamplePath)
    ensures Run(Arguments(ExampleUrl, Some(ExamplePath), true, true, Some("admin"), None, Some("raw-sigs")), pathExists, contents) ==
      Sent(Put(ExampleUrl + "/repository/" + "raw-sigs" + "/" + ExampleRepo + "/" + ExampleLayer + "/signature-1", contents, None, true))
  {
    AcceptedUrlExample();
    ExampleNexusUrl();
  }

  lemma ExampleNexusUrl()
    ensures Contains(ExamplePath, "/")
    ensures NexusUrl(ExampleUrl, "raw-sigs", ExamplePath) == ExampleUrl + "/repository/" + "raw-sigs" + "/" + ExampleRepo + "/" + ExampleLayer + "/signature-1"
  {
    assert NoSlash(ExampleRepo) && NoSlash(ExampleLayer) && NoSlash("signature-1");
    NexusUrlOfDeepPath(ExampleUrl, "raw-sigs", "/data/sigstore", ExampleRepo, ExampleLayer, "signature-1");
  }
}
