/**
 * `Wrapper._split_path` / `get_path_components` and `Wrapper.build_payload`:
 * the last (up to) three "/"-segments of the signature path give the
 * repository name (component 0) and the layer id (component 1); each is
 * UTF-8 encoded and base64-encoded, and so are the file's raw octets.
 */
module PathPayload {
  import opened Wrappers
  import opened Bytes
  import opened Text
  import Base64
  import Utf8

  /** `sig_file.split("/")[-3:]`: the last three segments, or all of them when there are fewer. */
  function PathComponents(sigFile: string): (r: seq<string>)
    ensures 1 <= |r| <= 3
    ensures |r| >= 2 <==> Contains(sigFile, "/")
  {
    var segments := Split(sigFile, "/");
    if |segments| <= 3 then segments else segments[|segments| - 3..]
  }

  /**
   * The components are slash-free and are the end of the path, cut at a "/";
   * with fewer than three, they are the whole path.
   */
  lemma PathComponentsShape(sigFile: string)
    ensures var r := PathComponents(sigFile);
      (forall i :: 0 <= i < |r| ==> !Contains(r[i], "/")) &&
      (exists t :: sigFile == t + Join(r, "/") && (t == "" || t[|t| - 1] == '/')) &&
      (|r| < 3 ==> Join(r, "/") == sigFile)
  {
    var segments := Split(sigFile, "/");
    var r := PathComponents(sigFile);
    SplitJoin(sigFile, "/");
    SplitPieces(sigFile, "/");
    if |segments| <= 3 {
      assert sigFile == "" + Join(r, "/");
    } else {
      var t := JoinTailIsSuffix(segments, "/", |segments| - 3);
      assert segments[|segments| - 3..] == r;
      if t != "" {
        assert t[|t| - 1] == t[|t| - 1..][0];
      }
      assert sigFile == t + Join(r, "/") && (t == "" || t[|t| - 1] == '/');
    }
  }

  /** The request body of a direct upload, before JSON serialisation. */
  datatype Payload = Payload(repoName: string, layerId: string, signatureData: string)

  /** The inverse of `EncodeText`: base64, then UTF-8 decoding. */
  function DecodeText(field: string): Option<string>
  {
    match Base64.Decode(field)
    case None => None
    case Some(octets) => Utf8.Decode(octets)
  }

  /**
   * `base64.b64encode(text.encode("utf8")).decode("utf8")`: a field of the
   * base64 alphabet from which `DecodeText` recovers the text.
   */
  function EncodeText(text: string): (field: string)
    ensures DecodeText(field) == Some(text)
    ensures |field| == 4 * ((|Utf8.Encode(text)| + 2) / 3)
  {
    Base64.DecodeEncode(Utf8.Encode(text));
    Utf8.DecodeEncode(text);
    Base64.Encode(Utf8.Encode(text))
  }

  /** A field that decodes to a text is that text's encoding: each text has exactly one field. */
  lemma EncodeTextOfDecoded(field: string, text: string)
    ensures DecodeText(field) == Some(text) ==> field == EncodeText(text)
  {
    if DecodeText(field) == Some(text) {
      var octets := Base64.Decode(field).value;
      Base64.EncodeDecode(field, octets);
      Utf8.EncodeDecode(octets, text);
    }
  }

  /**
   * `build_payload`: every field is base64 of the RFC 4648 alphabet and
   * decodes back to what it was built from. The path must have at least two
   * segments: with one, the source's `path_components[1]` raises IndexError.
   */
  function BuildPayload(sigFile: string, contents: seq<byte>): (p: Payload)
    requires Contains(sigFile, "/")
    ensures DecodeText(p.repoName) == Some(PathComponents(sigFile)[0])
    ensures DecodeText(p.layerId) == Some(PathComponents(sigFile)[1])
    ensures Base64.Decode(p.signatureData) == Some(contents)
    ensures |p.signatureData| == 4 * ((|contents| + 2) / 3)
  {
    var components := PathComponents(sigFile);
    Base64.DecodeEncode(contents);
    Payload(EncodeText(components[0]), EncodeText(components[1]), Base64.Encode(contents))
  }

  predicate NoSlash(s: string)
  {
    forall i :: 0 <= i < |s| ==> s[i] != '/'
  }

  /** A path `a/f` with slash-free parts splits into exactly those two segments. */
  lemma TwoSegments(a: string, f: string)
    requires NoSlash(a) && NoSlash(f)
    ensures Split(a + ['/'] + f, "/") == [a, f]
  {
    SplitAround(a, f, '/');
    SplitWithout(a, '/');
    SplitWithout(f, '/');
  }

  /** A path `dir/a/b/f` with slash-free `a`, `b`, `f` has components `a`, `b`, `f`, whatever `dir` is. */
  lemma DeepPathComponents(dir: string, a: string, b: string, f: string)
    requires NoSlash(a) && NoSlash(b) && NoSlash(f)
    ensures PathComponents(dir + "/" + a + "/" + b + "/" + f) == [a, b, f]
  {
    var bf := b + ['/'] + f;
    var abf := a + ['/'] + bf;
    var path := dir + ['/'] + abf;
    assert dir + "/" + a + "/" + b + "/" + f == path;
    TwoSegments(b, f);
    SplitAround(a, bf, '/');
    SplitWithout(a, '/');
    assert Split(abf, "/") == [a, b, f];
    SplitAround(dir, abf, '/');
    var segments := Split(path, "/");
    assert segments == Split(dir, "/") + [a, b, f];
    assert segments[|segments| - 3..] == [a, b, f];
  }

  /** Appending a slash-free file name to any path adds exactly one segment. */
  lemma AppendSegment(dir: string, f: string)
    requires NoSlash(f)
    ensures Split(dir + "/" + f, "/") == Split(dir, "/") + [f]
  {
    assert dir + "/" + f == dir + ['/'] + f;
    SplitAround(dir, f, '/');
    SplitWithout(f, '/');
  }

  /** Appending a file name to a path with at least two segments puts that path's last two segments first. */
  lemma LastSegmentsOfDirectory(dir: string, f: string)
    requires Contains(dir, "/") && NoSlash(f)
    ensures var d := Split(dir, "/");
      |d| >= 2 && Contains(dir + "/" + f, "/") &&
      PathComponents(dir + "/" + f)[..2] == d[|d| - 2..]
  {
    AppendSegment(dir, f);
    var d := Split(dir, "/");
    var segments := d + [f];
    assert |PathComponents(dir + "/" + f)| == 3;
    assert PathComponents(dir + "/" + f) == segments[|segments| - 3..];
  }

  /** A path `a/f` with slash-free parts has the directory as repository name and the file name as layer id. */
  lemma TwoSegmentPathComponents(a: string, f: string)
    requires NoSlash(a) && NoSlash(f)
    ensures PathComponents(a + "/" + f) == [a, f]
  {
    assert a + "/" + f == a + ['/'] + f;
    TwoSegments(a, f);
  }

  /** A path `x/a/b` of three slash-free segments has exactly those as components. */
  lemma ThreeSegmentPathComponents(x: string, a: string, b: string)
    requires NoSlash(x) && NoSlash(a) && NoSlash(b)
    ensures PathComponents(x + "/" + a + "/" + b) == [x, a, b]
  {
    var ab := a + ['/'] + b;
    assert x + "/" + a + "/" + b == x + ['/'] + ab;
    TwoSegments(a, b);
    SplitAround(x, ab, '/');
    SplitWithout(x, '/');
  }

  /** A path of two segments under the root, `/a/b`, has the empty string as repository name. */
  lemma RootedPathComponents(a: string, b: string)
    requires NoSlash(a) && NoSlash(b)
    ensures PathComponents("/" + a + "/" + b) == ["", a, b]
  {
    var ab := a + ['/'] + b;
    assert "/" + a + "/" + b == "" + ['/'] + ab;
    TwoSegments(a, b);
    SplitAround("", ab, '/');
    SplitWithout("", '/');
    assert Split("/" + a + "/" + b, "/") == ["", a, b];
  }

  /** The repository and layer segments of the example path `/data/sigstore/myrepo/layer123/signature-1`. */
  const ExampleRepo: string := "myrepo"
  const ExampleLayer: string := "layer123"

  /** The repository field for the example path, `bXlyZXBv`, by its two quanta. */
  lemma ExampleRepoField()
    ensures EncodeText(ExampleRepo) == "bXly" + "ZXBv"
  {
    var g0: seq<byte>, g1: seq<byte> := [109, 121, 114], [101, 112, 111];
    AsciiOctets(ExampleRepo, g0 + g1);
    RepoBase64(g0, g1);
  }

  /** A text of ASCII characters encodes as their code points. */
  lemma AsciiOctets(s: string, b: seq<byte>)
    requires |s| == |b| && forall i :: 0 <= i < |s| ==> b[i] < 0x80 && s[i] as int == b[i]
    ensures Utf8.Encode(s) == b
  {
  }

  /** `q` is the quantum of the three octets: each digit checked through its value. */
  lemma GroupOf(q: string, b0: byte, b1: byte, b2: byte)
    requires |q| == 4 && Base64.IsDigit(q[0]) && Base64.IsDigit(q[1]) && Base64.IsDigit(q[2]) && Base64.IsDigit(q[3])
    requires Base64.DigitValue(q[0]) == b0 / 4 && Base64.DigitValue(q[1]) == (b0 % 4) * 16 + b1 / 16
    requires Base64.DigitValue(q[2]) == (b1 % 16) * 4 + b2 / 64 && Base64.DigitValue(q[3]) == b2 % 64
    ensures Base64.EncodeGroup(b0, b1, b2) == q
  {
  }

  /** The octets of "myrepo", two full groups. */
  lemma RepoBase64(g0: seq<byte>, g1: seq<byte>)
    requires g0 == [109, 121, 114] && g1 == [101, 112, 111]
    ensures Base64.Encode(g0 + g1) == "bXly" + "ZXBv"
  {
    Base64.EncodeInFront(g0, g1);
    Base64.EncodeInFront(g1, []);
    assert g1 + [] == g1;
    GroupOf("bXly", 109, 121, 114);
    GroupOf("ZXBv", 101, 112, 111);
  }

  /** The layer field for the example path, `bGF5ZXIxMjM=`: eight octets, so one '=' of padding. */
  lemma ExampleLayerField()
    ensures EncodeText(ExampleLayer) == "bGF5" + "ZXIx" + "MjM="
  {
    var g0: seq<byte>, g1: seq<byte>, g2: seq<byte> := [108, 97, 121], [101, 114, 49], [50, 51];
    AsciiOctets(ExampleLayer, g0 + (g1 + g2));
    LayerBase64(g0, g1, g2);
  }

  /** The octets of "layer123": two full groups and a last group of two octets. */
  lemma LayerBase64(g0: seq<byte>, g1: seq<byte>, g2: seq<byte>)
    requires g0 == [108, 97, 121] && g1 == [101, 114, 49] && g2 == [50, 51]
    ensures Base64.Encode(g0 + (g1 + g2)) == "bGF5" + "ZXIx" + "MjM="
  {
    Base64.EncodeInFront(g0, g1 + g2);
    Base64.EncodeInFront(g1, g2);
    GroupOf("bGF5", 108, 97, 121);
    GroupOf("ZXIx", 101, 114, 49);
    GroupOf("MjMA", 50, 51, 0);
    assert Base64.Encode(g2) == Base64.EncodeGroup(50, 51, 0)[..3] + "=";
    assert "MjMA"[..3] + "=" == "MjM=";
  }
}
