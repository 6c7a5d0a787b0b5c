/** The image helpers of the React application: the type and size check shared by the
    client and server helpers, the unique blob name built for an upload, and the two
    blob-store calls, whose outcome depends only on the configured token and on what
    the store answers. */
module Blob {
  import opened Wrappers
  import Text

  /** What the helpers read of a browser `File`. */
  datatype File = File(name: string, mimeType: string, size: nat)

  const AllowedTypes: seq<string> := ["image/jpeg", "image/jpg", "image/png", "image/webp"]
  const MaxSize: nat := 5 * 1024 * 1024
  const TypeError := "Apenas arquivos JPG, PNG e WebP são permitidos"
  const SizeError := "A imagem deve ter no máximo 5MB"
  const UploadError := "Erro ao fazer upload da imagem"

  /** `validateImageFile`: the type check first, then the size check; `null` (None)
      when both pass, so a file of exactly 5 MiB is accepted. */
  function ValidateImageFile(f: File): (r: Option<string>)
    ensures f.mimeType !in AllowedTypes ==> r == Some(TypeError)
    ensures f.mimeType in AllowedTypes && f.size > 5242880 ==> r == Some(SizeError)
    ensures r.None? <==> f.mimeType in AllowedTypes && f.size <= 5242880
  {
    if f.mimeType !in AllowedTypes then Some(TypeError)
    else if f.size > MaxSize then Some(SizeError)
    else None
  }

  /** `${folder}/${timestamp}-${Math.random().toString(36).substring(7)}.${ext}` where ext
      is `name.split(".").pop()`: `random36` is the base-36 text of the random number. */
  function UploadName(folder: string, timestamp: int, random36: string, fileName: string): (r: string)
    ensures |folder| + 1 <= |r| && r[..|folder| + 1] == folder + "/"
    ensures var ext := Text.LastDotSegment(fileName);
            |ext| + 1 <= |r| && r[|r| - |ext| - 1..] == "." + ext
  {
    var ext := Text.LastDotSegment(fileName);
    var r := UploadStem(folder, timestamp, random36) + ("." + ext);
    FramedBy(folder + "/", Text.IntToDecimal(timestamp) + "-" + Text.SubstringFrom(random36, 7), "." + ext, r);
    r
  }

  /** The name up to the extension's dot. */
  function UploadStem(folder: string, timestamp: int, random36: string): string {
    folder + "/" + (Text.IntToDecimal(timestamp) + "-" + Text.SubstringFrom(random36, 7))
  }

  lemma FramedBy(a: string, b: string, c: string, r: string)
    requires r == a + b + c
    ensures |a| <= |r| && r[..|a|] == a
    ensures |c| <= |r| && r[|r| - |c|..] == c
  {
  }

  /** The last dot segment of `p + "." + e`, for a dot-free e, is e. */
  lemma LastDotSegmentOfSuffix(p: string, e: string)
    requires '.' !in e
    ensures Text.LastDotSegment(p + "." + e) == e
  {
    var s := p + "." + e;
    var r := Text.LastDotSegment(s);
    assert s[|p|] == '.';
    assert '.' in s;
    assert r == s[|s| - |e|..];
    assert s[|s| - |e|..] == e;
  }

  /** The stored name keeps the file's extension: splitting it at its last dot gives back
      the extension of the original name. */
  lemma UploadNameKeepsExtension(folder: string, timestamp: int, random36: string, fileName: string)
    ensures Text.LastDotSegment(UploadName(folder, timestamp, random36, fileName)) == Text.LastDotSegment(fileName)
  {
    var ext := Text.LastDotSegment(fileName);
    var p := UploadStem(folder, timestamp, random36);
    assert UploadName(folder, timestamp, random36, fileName) == p + "." + ext;
    LastDotSegmentOfSuffix(p, ext);
  }

  /** Two uploads made at different instants get different names, whatever the random
      part and the file names: the timestamp is read back up to the first "-" after the
      folder. */
  lemma DistinctTimestampsDistinctNames(folder: string, t1: nat, t2: nat, random1: string, random2: string,
                                        name1: string, name2: string)
    requires t1 != t2
    ensures UploadName(folder, t1, random1, name1) != UploadName(folder, t2, random2, name2)
  {
    var x1 := NameShape(folder, t1, random1, name1);
    var x2 := NameShape(folder, t2, random2, name2);
    var d1, d2 := Text.NatToDecimal(t1), Text.NatToDecimal(t2);
    Text.DecimalRoundTrip(t1);
    Text.DecimalRoundTrip(t2);
    assert d1 != d2;
    if UploadName(folder, t1, random1, name1) == UploadName(folder, t2, random2, name2) {
      DigitsBeforeDash(d1, d2, x1, x2);
    }
  }

  /** After the folder and "/", a name is the timestamp's digits, "-" and the rest. */
  lemma NameShape(folder: string, t: nat, random36: string, name: string) returns (x: string)
    ensures UploadName(folder, t, random36, name)[|folder| + 1..] == Text.NatToDecimal(t) + "-" + x
  {
    var ext := Text.LastDotSegment(name);
    var sub := Text.SubstringFrom(random36, 7);
    x := sub + "." + ext;
    var d := Text.NatToDecimal(t);
    assert Text.IntToDecimal(t) == d;
    var head := folder + "/";
    var r := UploadName(folder, t, random36, name);
    assert r == UploadStem(folder, t, random36) + ("." + ext);
    assert UploadStem(folder, t, random36) == head + (d + "-" + sub);
    assert r == head + (d + "-" + x);
    AfterPrefix(head, d + "-" + x);
  }

  lemma AfterPrefix(a: string, b: string)
    ensures (a + b)[|a|..] == b
  {
  }

  /** A run of digits ended by "-" is determined by the text it starts. */
  lemma DigitsBeforeDash(d1: string, d2: string, x1: string, x2: string)
    requires forall i :: 0 <= i < |d1| ==> Text.IsDigit(d1[i])
    requires forall i :: 0 <= i < |d2| ==> Text.IsDigit(d2[i])
    requires d1 + "-" + x1 == d2 + "-" + x2
    ensures d1 == d2
  {
    var s := d1 + "-" + x1;
    FirstDash(d1, x1);
    FirstDash(d2, x2);
    assert |d1| == |d2|;
    assert d1 == s[..|d1|] == d2;
  }

  /** In a run of digits followed by "-", the first "-" is right after the digits. */
  lemma FirstDash(d: string, x: string)
    requires forall i :: 0 <= i < |d| ==> Text.IsDigit(d[i])
    ensures (d + "-" + x)[|d|] == '-'
    ensures forall i :: 0 <= i < |d| ==> (d + "-" + x)[i] != '-'
  {
    var s := d + "-" + x;
    forall i | 0 <= i < |d| ensures s[i] != '-' {
      assert s[i] == d[i];
    }
  }

  /** A token counts only when set to a non-empty text. */
  predicate HasToken(token: Option<string>) {
    token.Some? && token.value != ""
  }

  /** `uploadImage`: without a token, or when the store refuses the `put` of the unique
      name, every error is replaced by the one upload message; otherwise the blob's URL. */
  function UploadImage(token: Option<string>, f: File, folder: string, timestamp: int, random36: string,
                       put: string -> Option<string>): (r: Result<string, string>)
    ensures !HasToken(token) ==> r == Err(UploadError)
    ensures r.Err? ==> r.error == UploadError
    ensures r.Ok? <==> HasToken(token) && put(UploadName(folder, timestamp, random36, f.name)).Some?
    ensures r.Ok? ==> r.value == put(UploadName(folder, timestamp, random36, f.name)).value
  {
    if !HasToken(token) then Err(UploadError)
    else
      match put(UploadName(folder, timestamp, random36, f.name))
      case None => Err(UploadError)
      case Some(url) => Ok(url)
  }

  /** `deleteImage`: the URL handed to the store's `del`, or nothing without a token. The
      call resolves either way, whatever the store answers. */
  function DeleteRequest(token: Option<string>, url: string): (r: Option<string>)
    ensures r.None? <==> !HasToken(token)
    ensures r.Some? ==> r.value == url
  {
    if HasToken(token) then Some(url) else None
  }
}
