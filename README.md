# Signature uploader — a verified model

The repository signs container images and stores the detached signatures in a
"sigstore" directory tree. An uploader script then sends each signature file
to a signature server. There are two copies of the script:

- `clients/signature-upload.py` posts the file to an nginx-style signature
  endpoint, or, with `--nexus`, PUTs it into a Nexus3 RAW repository.
- `jenkins-agents/signer-agent/scripts/upload.py` is the build agent's copy.
  It only does the POST.

This project models what both scripts decide and build. That covers the
option defaults and the validation pipeline of `Parser.parse`, with its fixed
check order and three error kinds. It also covers the URL validator, the
extraction of the repository name and layer id from the signature path, and
the JSON payload with its base64 fields. For the client it adds the Nexus
target URL and the Basic-auth decision. For both it covers the exit status of
every run.

Each run ends with a description of the one HTTP request it would issue
(`Outcomes.Request`), or with the error that stopped it. Nothing is sent.
File existence is a parameter `pathExists: string -> bool`. The file's octets
are a parameter `contents`.

Modules, one per file:

- `Wrappers`, `Bytes` (`common.dfy`): `Option`, `Result` and the octet type.
- `Text` (`text.dfy`): Python's `str.split` with a non-empty separator,
  specified by the first occurrence of the separator, plus `join` and the
  splitting lemmas the path and URL proofs use.
- `Base64` (`base64.dfy`): the encoding of section 4 of RFC 4648, standard
  alphabet with `=` padding, as `base64.b64encode` produces it. Also a strict
  decoder, with the round trip proved in both directions.
- `Utf8` (`utf8.dfy`): `str.encode("utf8")` following section 3 of RFC 3629,
  with a decoder and the round trip.
- `Errors` (`errors.dfy`): the three exceptions and their exit codes.
- `UrlValidation` (`url.dfy`): `_validate_url`, which is identical in both
  scripts.
- `PathPayload` (`payload.dfy`): `_split_path` / `get_path_components` and
  `build_payload`.
- `Outcomes` (`outcome.dfy`): the request description and the exit status.
- `SignatureUpload` (`signature_upload.dfy`): the client script. Its `Parser`
  class fills the `wrapper` dictionary key by key, as the source does.
- `AgentUpload` (`agent_upload.dfy`): the agent script. A lemma proves that it
  behaves as the client does without `--nexus`.

The hostname check is `re.match(r"([a-z\d-]{1,63})+", label, re.IGNORECASE)`.
`re.match` is anchored at the start of the label only, so any label that
*begins* with a letter, digit or `-` passes, whatever follows. The model
defines the language of the pattern (`UrlValidation.InPattern`) and proves
that an anchored-at-start match exists exactly when the label is non-empty and
its first character is in the class. All URL results rest on that rule, so
`a_b`, a label of 100 characters and `sig.example.com:8080/x` are all
accepted. Reading the pattern as a whole-label match would describe a
stricter validator than the code implements. The model follows the code.

## Model

| member | source | states |
|---|---|---|
| Text.FindFrom | clients/signature-upload.py:88 | the result is the first index at or after `from` where the separator occurs, or none exists |
| Text.Find | clients/signature-upload.py:88 | an index is found iff the separator occurs at all, and it is the leftmost occurrence |
| Text.Split | clients/signature-upload.py:88 | `str.split(sep)`: the text itself is the one piece when `sep` does not occur; otherwise there are at least two pieces and the first is the text before the first occurrence |
| Text.SplitJoin | clients/signature-upload.py:88 | joining the pieces with `sep` gives back the text, for every text |
| Text.SplitPieces | clients/signature-upload.py:88 | no piece contains `sep` |
| Text.SplitAround | clients/signature-upload.py:44 | splitting `a + c + b` on the one-character separator `c` is splitting `a` followed by splitting `b` |
| Text.SplitWithout | clients/signature-upload.py:44 | a text without the separator splits into itself alone |
| Text.JoinTailIsSuffix | clients/signature-upload.py:44 | the joined proper tail of the pieces is a suffix of the whole joined text, and what precedes it is empty or ends with the separator, so `[-3:]` keeps the end of the path |
| Base64.Encode | clients/signature-upload.py:55-57 | `b64encode`: the length is 4·⌈n/3⌉ |
| Base64.EncodeAlphabet | clients/signature-upload.py:55-57 | the encoding is characters of the alphabet `A–Z a–z 0–9 + /` followed by exactly (3 − n mod 3) mod 3 `=`, which is not in the alphabet |
| Base64.Digit | clients/signature-upload.py:55-57 | every six-bit value maps to a character of the alphabet |
| Base64.DigitValue | clients/signature-upload.py:55-57 | every alphabet character has the value that `Digit` maps back to it |
| Base64.DecodeEncode | clients/signature-upload.py:55-57 | decoding the encoding of any octets gives them back exactly |
| Base64.EncodeDecode | clients/signature-upload.py:55-57 | a text that decodes to some octets is their encoding, so each octet sequence has exactly one encoding |
| Utf8.EncodeChar | clients/signature-upload.py:55-56 | one to four octets; a single octet iff the code point is below 0x80, and then it is the code point; later octets are continuation octets |
| Utf8.Encode | clients/signature-upload.py:55-56 | between n and 4n octets; an ASCII text encodes to its code points |
| Utf8.DecodeEncodeChar | clients/signature-upload.py:55-56 | decoding at the start of a character's encoding gives the character and the encoding's length back |
| Utf8.DecodeEncode | clients/signature-upload.py:55-56 | decoding the UTF-8 encoding of any text gives it back |
| Utf8.EncodeDecode | clients/signature-upload.py:55-56 | octets that decode to a text are that text's encoding, so each text has exactly one UTF-8 form and a decoded field is the UTF-8 of its component |
| Errors.ExitCode | clients/signature-upload.py:164-172 | MissingArgument exits 1, InvalidPath exits 2, MalformedArgument exits 3, each iff |
| UrlValidation.PatternLanguage | clients/signature-upload.py:93 | the language of `([a-z\d-]{1,63})+` is exactly the non-empty words over the class |
| UrlValidation.MatchIsFirstChar | clients/signature-upload.py:93-94 | `re.match` of the pattern succeeds on a label iff the label is non-empty and starts with a class character |
| UrlValidation.LabelMatches | clients/signature-upload.py:93-94 | the first-character test is equivalent to the anchored-at-start regex match |
| UrlValidation.HostnameValid | clients/signature-upload.py:94 | a hostname whose "."-labels all match starts with a class character; a hostname without "." is valid iff it matches as one label |
| UrlValidation.HostnameValidIsRule | clients/signature-upload.py:94 | all "."-labels match iff the host starts with a class character and every "." is followed by one |
| UrlValidation.UrlCheck | clients/signature-upload.py:87-99 | MalformedArgument iff the URL has no "://"; accepted iff `UrlAccepted` (scheme before the first "://" is exactly "http" or "https" and the second "://"-piece obeys the hostname rule); InvalidPath iff "://" occurs and the URL is not accepted; the agent's validator (upload.py lines 74-86) is the same code |
| UrlValidation.SchemeAndHost | clients/signature-upload.py:88-94 | `components[0]` is the text before the first "://" and `components[1]` the text up to the next "://" |
| UrlValidation.NoColonNoSeparator | clients/signature-upload.py:88-90 | a text without ':' contains no "://" and so is malformed as a URL |
| UrlValidation.OneColonNoSeparator | clients/signature-upload.py:88 | a port-style ':' not followed by '/' does not split the URL again |
| UrlValidation.UrlOfParts | clients/signature-upload.py:88-99 | `scheme://host` is accepted iff the scheme is "http" or "https", compared case-sensitively, and the host obeys the rule; otherwise the validator raises InvalidPath |
| UrlValidation.AppendLabel | clients/signature-upload.py:93-94 | a valid hostname followed by "." and a label of class characters is a valid hostname |
| UrlValidation.AppendWithoutDot | clients/signature-upload.py:93-94 | text without "." after a valid hostname keeps it valid, since the rule looks only at the first character of each label |
| UrlValidation.AcceptedUrlExample | clients/signature-upload.py:92-99 | `https://sig.example.com` is accepted |
| UrlValidation.UpperCaseSchemeRefused | clients/signature-upload.py:92-99 | `HTTP://sig.example.com` is refused with InvalidPath |
| UrlValidation.EmptyLabelRefused | clients/signature-upload.py:93-99 | `http://a..b` is refused with InvalidPath |
| UrlValidation.TrailingDotRefused | clients/signature-upload.py:93-99 | `http://a.b.` is refused with InvalidPath |
| UrlValidation.EmptyHostRefused | clients/signature-upload.py:93-99 | `http://` is refused with InvalidPath |
| UrlValidation.PortAndPathAccepted | clients/signature-upload.py:88-99 | `https://sig.example.com:8080/x` is accepted |
| UrlValidation.DefaultUrlAccepted | clients/signature-upload.py:68 | the default `http://signature.apps.kubernetes.local` passes the validator |
| PathPayload.PathComponents | clients/signature-upload.py:43-48 | `split("/")[-3:]`: one to three segments; at least two iff the path contains "/" |
| PathPayload.PathComponentsShape | clients/signature-upload.py:43-48 | the components are slash-free; joined with "/" they are the end of the path, cut just after a "/" or at the start, and the whole path when there are fewer than three |
| PathPayload.ThreeSegmentPathComponents | clients/signature-upload.py:43-48 | `x/a/b` with slash-free parts has components exactly `[x, a, b]` |
| PathPayload.BuildPayload | clients/signature-upload.py:50-60 | repoName and layerId decode (base64, then UTF-8) to components 0 and 1; signatureData decodes to exactly the file's octets and has length 4·⌈n/3⌉; the agent's `build_payload` (upload.py lines 43-53) is the same code |
| PathPayload.EncodeText | clients/signature-upload.py:55-56 | `b64encode(s.encode("utf8"))` decodes back to `s` (base64, then UTF-8), and has length 4·⌈n/3⌉ for the n octets of the UTF-8 form |
| PathPayload.EncodeTextOfDecoded | clients/signature-upload.py:55-56 | a field that decodes (base64, then UTF-8) to a text is exactly `b64encode(text.encode("utf8"))`, so the decoding facts about the payload fix its fields |
| PathPayload.TwoSegments | clients/signature-upload.py:44 | `a/f` with slash-free parts splits into `[a, f]` |
| PathPayload.AppendSegment | clients/signature-upload.py:44 | appending `/f` adds exactly the segment `f` |
| PathPayload.LastSegmentsOfDirectory | clients/signature-upload.py:44 | for `dir/f`, components 0 and 1 are the last two segments of `dir` |
| PathPayload.DeepPathComponents | clients/signature-upload.py:44 | `dir/a/b/f` has components `[a, b, f]`, whatever `dir` is |
| PathPayload.TwoSegmentPathComponents | clients/signature-upload.py:44 | `a/f` has repoName `a` and layerId `f` |
| PathPayload.RootedPathComponents | clients/signature-upload.py:44 | `/a/b` has components `["", a, b]`, so repoName is empty |
| PathPayload.ExampleRepoField | clients/signature-upload.py:55 | "myrepo" becomes `bXlyZXBv` (stated as its two quanta) |
| PathPayload.ExampleLayerField | clients/signature-upload.py:56 | "layer123" becomes `bGF5ZXIxMjM=` (stated as its three quanta) |
| Outcomes.ExitStatus | clients/signature-upload.py:138-172 | 0 iff a request was sent; a caught error exits with its own code; nothing above 3 |
| SignatureUpload.ParseArguments | clients/signature-upload.py:67-79 | absent `-r` gives the default URL, which the validator accepts; `ssl_verify` is true unless `--no-verify`; `upload_to_nexus` is true only with `--nexus`; the other options stay absent when not given |
| SignatureUpload.ParseResult | clients/signature-upload.py:101-133 | the error of every input, in check order: no sig_path gives MissingArgument; then MalformedArgument iff no "://"; InvalidPath iff the URL is refused or the file is missing; then in Nexus mode a missing sigstore name gives MissingArgument; on success the config carries the URL, the path and the flags; credentials iff Nexus mode and both username and password |
| SignatureUpload.Parser.constructor | clients/signature-upload.py:66-79 | the parser holds the parsed arguments and no validated values |
| SignatureUpload.Parser.ValidatePath | clients/signature-upload.py:81-85 | InvalidPath iff the path does not exist; otherwise `sig_file` is set to it and nothing else changes |
| SignatureUpload.Parser.ValidateUrl | clients/signature-upload.py:87-99 | the result is the URL check; `repo_url` is set only when the URL is accepted |
| SignatureUpload.Parser.Parse | clients/signature-upload.py:101-133 | the result is `ParseResult`; on success the dictionary holds exactly the config's entries; a missing sigstore name leaves the four keys written before it; other errors leave it empty; `repo_url` is recorded iff a sig_path is given and the URL is accepted, and `sig_file` iff the file also exists; otherwise each keeps its old value |
| SignatureUpload.EntriesFields | clients/signature-upload.py:118-131 | the dictionary has the four base keys, `sigstore_name` exactly with a sigstore name, `username` and `password` exactly with credentials, and no other key; each key holds its configuration field |
| SignatureUpload.WrapperKeys | clients/signature-upload.py:118-131 | username is in the dictionary iff password is, iff Nexus mode and both were given; sigstore_name iff Nexus mode; the four base keys are always there |
| SignatureUpload.NexusUrl | clients/signature-upload.py:141-143 | the target starts with the repository URL, unnormalised, and `/repository/<store>/`, ends with `/signature-1`, and between them holds the first two path components joined by "/" |
| SignatureUpload.NexusUrlOfDeepPath | clients/signature-upload.py:141-143 | for `dir/a/b/f` the PUT target is the repository URL, unnormalised, then `/repository/<store>/a/b/signature-1` |
| SignatureUpload.NexusUrlIgnoresFileName | clients/signature-upload.py:141-143 | when the directory path itself contains a "/", two files in that directory get the same target URL |
| SignatureUpload.NexusUrlOfTwoSegments | clients/signature-upload.py:141-143 | for a two-segment path `a/f` the target ends `/a/f/signature-1`: the file name is the layer id and reaches the URL |
| SignatureUpload.Run | clients/signature-upload.py:138-172 | a run fails iff parsing fails, and with the parser's error; it crashes iff parsing succeeds and the path has no "/"; a request that goes out is a PUT iff `--nexus`, and carries the verify flag |
| SignatureUpload.RunPost | clients/signature-upload.py:138-160 | a POST happens iff there is no `--nexus`, parsing succeeds and the path has a "/"; it goes to the URL as given, with the verify flag, and fields that decode to the components and the file |
| SignatureUpload.RunPut | clients/signature-upload.py:138-152 | a PUT happens iff Nexus mode is on, parsing succeeds and the path has a "/"; it goes to the Nexus URL, with the raw octets and the verify flag; Basic auth iff both username and password were given, and then with those two |
| SignatureUpload.RunExitStatus | clients/signature-upload.py:138-172 | with a sig_path given, exit 3 iff no "://" and 2 iff a refused URL or a missing file; 0 iff parsing succeeds and the path has a "/"; 1 iff MissingArgument or the one-segment crash |
| SignatureUpload.ExamplePathComponents | clients/signature-upload.py:43-48 | `/data/sigstore/myrepo/layer123/signature-1` has components myrepo, layer123, signature-1 |
| SignatureUpload.ExampleDirectUpload | clients/signature-upload.py:154-160 | that file posted to `https://sig.example.com` carries `bXlyZXBv` and `bGF5ZXIxMjM=` |
| SignatureUpload.ExampleNexusUrl | clients/signature-upload.py:141-143 | for store raw-sigs its target is `https://sig.example.com/repository/raw-sigs/myrepo/layer123/signature-1` |
| SignatureUpload.ExampleNexusUpload | clients/signature-upload.py:141-152 | that PUT carries the raw file and no auth when only a username is given |
| AgentUpload.ParseArguments | jenkins-agents/signer-agent/scripts/upload.py:59-66 | absent `-r` gives the accepted default URL; `ssl_verify` is true unless `--no-verify` |
| AgentUpload.ParseResult | jenkins-agents/signer-agent/scripts/upload.py:88-108 | MissingArgument iff no sig_path; MalformedArgument iff no "://"; InvalidPath iff the URL is refused or the file is missing; success otherwise, with exactly the URL, the path and the verify flag |
| AgentUpload.Parser.constructor | jenkins-agents/signer-agent/scripts/upload.py:59-66 | the parser holds the parsed arguments and no validated values |
| AgentUpload.Parser.ValidatePath | jenkins-agents/signer-agent/scripts/upload.py:68-72 | InvalidPath iff the path does not exist; otherwise `sig_file` is set |
| AgentUpload.Parser.ValidateUrl | jenkins-agents/signer-agent/scripts/upload.py:74-86 | the result is the URL check; `repo_url` is set only on acceptance |
| AgentUpload.Parser.Parse | jenkins-agents/signer-agent/scripts/upload.py:88-108 | the result is `ParseResult`; on success both validators have recorded the config's values; `repo_url` is recorded iff a sig_path is given and the URL is accepted, and `sig_file` iff the file also exists; otherwise each keeps its old value |
| AgentUpload.Run | jenkins-agents/signer-agent/scripts/upload.py:110-130 | a run fails iff parsing fails, and with the parser's error; it crashes iff parsing succeeds and the path has no "/"; a request that goes out is a POST with the verify flag |
| AgentUpload.RunPost | jenkins-agents/signer-agent/scripts/upload.py:110-121 | a request is sent iff parsing succeeds and the path has a "/"; it is a POST to the URL as given, with fields that decode to the components and the file |
| AgentUpload.AgreesWithClient | jenkins-agents/signer-agent/scripts/upload.py:88-121 | the agent's outcome equals the client's without `--nexus`, username, password or sigstore name |
| AgentUpload.RunExitStatus | jenkins-agents/signer-agent/scripts/upload.py:113-130 | with a sig_path given, exit 3 iff no "://" and 2 iff a refused URL or a missing file; 0 iff a request is sent; 1 iff no sig_path or the one-segment crash |

## Left out

- The HTTP calls themselves (`requests.post`, `requests.put`), TLS and the responses. A run ends with the request description. Exceptions from the network library are not modelled.
- `json.dumps` of the payload. The model stops at the three-field `Payload` record.
- argparse. `CommandLine` and `ParseArguments` stand for its output with the defaults of the option table. Its own usage errors and exit status 2 are not modelled.
- `os.path.exists` and reading the file are parameters. A directory passes `exists` but cannot be opened, and errors from `open` are not modelled.
- The `Wrapper` reflection class, meaning `_wrap` with `setattr`, its recursive wrapping and its non-dict check. It is replaced by the `Config` datatypes. So is the caching of `path_components` and `payload` as attributes, which no caller reads back.
- Printed messages and the exception message strings.
- The Unicode extras of Python's `re`: `\d` accepts non-ASCII digits, and IGNORECASE also folds characters such as the Kelvin sign into the class. `UrlValidation.IsHostChar` is the ASCII class only.
- Texts are sequences of Unicode scalar values. Python strings can also hold lone surrogates, which `encode("utf8")` rejects. That case is not modelled.
- A path with fewer than two "/"-segments makes `path_components[1]` or `params[1]` raise IndexError, which no handler catches. The model ends such a run as `Crashed`, with the interpreter's exit status 1. That is the same status as MissingArgument, so `RunExitStatus` groups the two.
- `PathPayload.BuildPayload` requires a "/" in the path. The source function has no guard and fails with IndexError instead. `Run` reaches that case as `Crashed`.
