/**
 * The uploader of the signer agent (jenkins-agents/signer-agent/scripts/upload.py):
 * the same URL and path validation and the same payload as the client, with
 * no Nexus mode: every successful run is one POST.
 */
module AgentUpload {
  import opened Wrappers
  import opened Bytes
  import opened Text
  import opened Errors
  import opened UrlValidation
  import opened PathPayload
  import opened Outcomes
  import SignatureUpload

  /** The three options as typed. */
  datatype CommandLine = CommandLine(
    repoUrl: Option<string>,       // -r / --repo_url
    absolutePath: Option<string>,  // -a / --absolute-path
    noVerify: bool)                // --no-verify

  /** The namespace argparse returns; `sigPath` is absent unless `-a` was given. */
  datatype Arguments = Arguments(repoUrl: string, sigPath: Option<string>, sslVerify: bool)

  function ParseArguments(cl: CommandLine): (a: Arguments)
    ensures cl.repoUrl.None? ==> a.repoUrl == DefaultRepoUrl && UrlCheck(a.repoUrl) == None
    ensures cl.repoUrl.Some? ==> a.repoUrl == cl.repoUrl.value
    ensures a.sslVerify <==> !cl.noVerify
    ensures a.sigPath == cl.absolutePath
  {
    DefaultUrlAccepted();
    Arguments(if cl.repoUrl.Some? then cl.repoUrl.value else DefaultRepoUrl, cl.absolutePath, !cl.noVerify)
  }

  /** The three entries `parse` wraps. */
  datatype Config = Config(repoUrl: string, sigFile: string, sslVerify: bool)

  /** `Parser.parse`: the sig_path check, then the URL, then the file's existence. */
  function ParseResult(args: Arguments, pathExists: string -> bool): (r: Result<Config, UploadError>)
    ensures r == Err(MissingArgument) <==> args.sigPath.None?
    ensures r == Err(MalformedArgument) <==> args.sigPath.Some? && !Contains(args.repoUrl, SchemeSeparator)
    ensures r == Err(InvalidPath) <==>
      args.sigPath.Some? && Contains(args.repoUrl, SchemeSeparator) &&
      (!UrlAccepted(args.repoUrl) || !pathExists(args.sigPath.value))
    ensures r.Ok? <==> args.sigPath.Some? && UrlAccepted(args.repoUrl) && pathExists(args.sigPath.value)
    ensures r.Ok? ==> r.value == Config(args.repoUrl, args.sigPath.value, args.sslVerify)
  {
    if args.sigPath.None? then Err(MissingArgument)
    else match UrlCheck(args.repoUrl)
      case Some(e) => Err(e)
      case None =>
        if !pathExists(args.sigPath.value) then Err(InvalidPath)
        else Ok(Config(args.repoUrl, args.sigPath.value, args.sslVerify))
  }

  /** The parser object: the validators store what they accept as attributes. */
  class Parser {
    const parsedArguments: Arguments
    var repoUrl: Option<string>
    var sigFile: Option<string>

    constructor (args: Arguments)
      ensures parsedArguments == args && repoUrl == None && sigFile == None
    {
      parsedArguments := args;
      repoUrl := None;
      sigFile := None;
    }

    /** `_validate_path`: refuses a path the file system does not have, otherwise records it. */
    method ValidatePath(pathExists: string -> bool) returns (err: Option<UploadError>)
      requires parsedArguments.sigPath.Some?
      modifies this`sigFile
      ensures err.None? <==> pathExists(parsedArguments.sigPath.value)
      ensures err.Some? ==> err.value == InvalidPath
      ensures sigFile == if err.None? then parsedArguments.sigPath else old(sigFile)
    {
      if !pathExists(parsedArguments.sigPath.value) {
        return Some(InvalidPath);
      }
      sigFile := parsedArguments.sigPath;
      return None;
    }

    /** `_validate_url`: the URL check; an accepted URL is recorded. */
    method ValidateUrl() returns (err: Option<UploadError>)
      modifies this`repoUrl
      ensures err == UrlCheck(parsedArguments.repoUrl)
      ensures repoUrl == if err.None? then Some(parsedArguments.repoUrl) else old(repoUrl)
    {
      err := UrlCheck(parsedArguments.repoUrl);
      if err.None? {
        repoUrl := Some(parsedArguments.repoUrl);
      }
    }

    /** `parse`; on success both validators have recorded their values. */
    method Parse(pathExists: string -> bool) returns (r: Result<Config, UploadError>)
      modifies this
      ensures r == ParseResult(parsedArguments, pathExists)
      ensures r.Ok? ==> repoUrl == Some(r.value.repoUrl) && sigFile == Some(r.value.sigFile)
      ensures repoUrl ==
        if parsedArguments.sigPath.Some? && UrlCheck(parsedArguments.repoUrl).None?
        then Some(parsedArguments.repoUrl) else old(repoUrl)
      ensures sigFile ==
        if parsedArguments.sigPath.Some? && UrlCheck(parsedArguments.repoUrl).None? &&
           pathExists(parsedArguments.sigPath.value)
        then parsedArguments.sigPath else old(sigFile)
    {
      if parsedArguments.sigPath.None? {
        return Err(MissingArgument);
      }
      var urlError := ValidateUrl();
      if urlError.Some? {
        return Err(urlError.value);
      }
      var pathError := ValidatePath(pathExists);
      if pathError.Some? {
        return Err(pathError.value);
      }
      r := Ok(Config(repoUrl.value, sigFile.value, parsedArguments.sslVerify));
    }
  }

  /** The top level: parse, build the payload, POST it. A one-segment path raises IndexError, which nothing catches. */
  function Run(args: Arguments, pathExists: string -> bool, contents: seq<byte>): (out: Outcome)
    ensures out.Failed? <==> ParseResult(args, pathExists).Err?
    ensures out.Failed? ==> out.error == ParseResult(args, pathExists).error
    ensures out.Crashed? <==> ParseResult(args, pathExists).Ok? && !Contains(args.sigPath.value, "/")
    ensures out.Sent? ==> out.request.Post? && out.request.verify == args.sslVerify
  {
    match ParseResult(args, pathExists)
    case Err(e) => Failed(e)
    case Ok(config) =>
      if !Contains(config.sigFile, "/") then Crashed
      else Sent(Post(config.repoUrl, BuildPayload(config.sigFile, contents), config.sslVerify))
  }

  /** The agent sends a request exactly when parsing succeeds and the path has a "/"; it is a POST to the URL as given, whose fields decode to the path components and the file. */
  lemma RunPost(args: Arguments, pathExists: string -> bool, contents: seq<byte>)
    ensures var out := Run(args, pathExists, contents);
      out.Sent? <==> ParseResult(args, pathExists).Ok? && Contains(args.sigPath.value, "/")
    ensures var out := Run(args, pathExists, contents);
      out.Sent? ==>
        var rq := out.request;
        var c := PathComponents(args.sigPath.value);
        rq.Post? && rq.url == args.repoUrl && rq.verify == args.sslVerify &&
        DecodeText(rq.payload.repoName) == Some(c[0]) &&
        DecodeText(rq.payload.layerId) == Some(c[1]) &&
        Base64.Decode(rq.payload.signatureData) == Some(contents)
  {
  }

  /** The agent behaves as the client does without `--nexus`. */
  lemma AgreesWithClient(args: Arguments, pathExists: string -> bool, contents: seq<byte>)
    ensures Run(args, pathExists, contents) ==
      SignatureUpload.Run(SignatureUpload.Arguments(args.repoUrl, args.sigPath, args.sslVerify, false, None, None, None),
                          pathExists, contents)
  {
    var clientArgs := SignatureUpload.Arguments(args.repoUrl, args.sigPath, args.sslVerify, false, None, None, None);
    var mine := ParseResult(args, pathExists);
    var theirs := SignatureUpload.ParseResult(clientArgs, pathExists);
    assert mine.Err? <==> theirs.Err?;
    if mine.Err? {
      assert mine.error == theirs.error;
    } else {
      assert theirs.value == SignatureUpload.Config(args.repoUrl, args.sigPath.value, args.sslVerify, false, None, None);
    }
  }

  /** 3 for a URL without "://", 2 for a refused URL or a missing file, 0 when the POST goes out, 1 otherwise. */
  lemma RunExitStatus(args: Arguments, pathExists: string -> bool, contents: seq<byte>)
    ensures var code := ExitStatus(Run(args, pathExists, contents));
      (code == 3 <==> args.sigPath.Some? && !Contains(args.repoUrl, SchemeSeparator)) &&
      (code == 2 <==> args.sigPath.Some? && Contains(args.repoUrl, SchemeSeparator) &&
                      (!UrlAccepted(args.repoUrl) || !pathExists(args.sigPath.value))) &&
      (code == 0 <==> ParseResult(args, pathExists).Ok? && Contains(args.sigPath.value, "/")) &&
      (code == 1 <==> args.sigPath.None? || Run(args, pathExists, contents) == Crashed)
  {
  }
}
