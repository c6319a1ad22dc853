/** The content hasher: `hash(InputStream, String)` / `hash(File)` (Java) and `hash(File)` (Kotlin). */
module Hashing {
  import opened Results
  import opened Paths
  import opened FileSystem
  import opened HexFormat

  /** A digest algorithm, seen only through what it returns for the bytes it was updated with. */
  type Engine = seq<byte> -> seq<byte>

  /** The algorithms `MessageDigest.getInstance` knows, by name. */
  type Registry = map<string, Engine>

  datatype HashError =
      /** `FileInputStream` could not open the path, or a `read` threw. */
    | NotReadable(path: Path)
      /** `MessageDigest.getInstance` threw `NoSuchAlgorithmException`. */
    | NoSuchAlgorithm(name: string)

  /** The size of the Java read buffer. */
  const BufferSize: nat := 1024

  /** A file for which `new FileInputStream` succeeds. */
  predicate Opens(fs: FS, p: Path) {
    IsFile(fs, p) && fs[p].opens
  }

  /** A file whose bytes can be read through a `FileInputStream`: it opens, and no `read` throws. */
  predicate Readable(fs: FS, p: Path) {
    Opens(fs, p) && fs[p].readable
  }

  function Concat(chunks: seq<seq<byte>>): seq<byte> {
    if chunks == [] then [] else Concat(chunks[..|chunks| - 1]) + chunks[|chunks| - 1]
  }

  /** The Java read loop: `read` fills at most one buffer per call until the stream is
      exhausted, and each filled prefix goes to `digest.update`; then the digest is rendered. */
  method DigestStream(content: seq<byte>, engine: Engine) returns (hex: string, chunks: seq<seq<byte>>)
    ensures forall i :: 0 <= i < |chunks| ==> 0 < |chunks[i]| <= BufferSize
    ensures Concat(chunks) == content
    ensures hex == Hex(engine(content))
  {
    var pos := 0;
    chunks := [];
    while pos < |content|
      invariant 0 <= pos <= |content|
      invariant forall i :: 0 <= i < |chunks| ==> 0 < |chunks[i]| <= BufferSize
      invariant Concat(chunks) == content[..pos]
    {
      var n := if |content| - pos < BufferSize then |content| - pos else BufferSize;
      chunks := chunks + [content[pos..pos + n]];
      pos := pos + n;
    }
    // the digest has seen exactly the bytes handed to `update`
    assert Concat(chunks) == content;
    hex := Hex(engine(Concat(chunks)));
  }

  /** The Kotlin loop: `readBytes` then one `digest.update` per byte, in order. */
  method DigestBytewise(content: seq<byte>, engine: Engine) returns (hex: string, updates: nat)
    ensures updates == |content|
    ensures hex == Hex(engine(content))
  {
    var fed: seq<byte> := [];
    updates := 0;
    while updates < |content|
      invariant 0 <= updates <= |content|
      invariant fed == content[..updates]
    {
      fed := fed + [content[updates]];
      updates := updates + 1;
    }
    assert fed == content;
    hex := Hex(engine(fed));
  }

  /** Which failure a file hash reports first: Java opens the stream, then looks up the
      algorithm, then reads; Kotlin looks up the algorithm before opening and reading. */
  datatype CheckOrder = StreamFirst | AlgorithmFirst

  /** The digest string of one file, or the error that aborts the run. */
  function FileDigest(order: CheckOrder, fs: FS, reg: Registry, alg: string, p: Path): (r: Result<string, HashError>)
    ensures r.Ok? <==> Readable(fs, p) && alg in reg
    ensures !Readable(fs, p) && alg in reg ==> r == Err(NotReadable(p))
    ensures !Opens(fs, p) && order.StreamFirst? ==> r == Err(NotReadable(p))
    ensures alg !in reg && (order.AlgorithmFirst? || Opens(fs, p)) ==> r == Err(NoSuchAlgorithm(alg))
    ensures r.Ok? ==> |r.value| == 2 * |reg[alg](fs[p].content)|
  {
    match order
    case StreamFirst =>
      if !Opens(fs, p) then Err(NotReadable(p))
      else if alg !in reg then Err(NoSuchAlgorithm(alg))
      else if !Readable(fs, p) then Err(NotReadable(p))
      else Ok(Hex(reg[alg](fs[p].content)))
    case AlgorithmFirst =>
      if alg !in reg then Err(NoSuchAlgorithm(alg))
      else if !Readable(fs, p) then Err(NotReadable(p))
      else Ok(Hex(reg[alg](fs[p].content)))
  }

  /** Two files get the same digest string exactly when the algorithm maps their contents to the
      same digest: the rendering itself never merges or splits groups. */
  lemma SameDigestString(order: CheckOrder, fs: FS, reg: Registry, alg: string, p: Path, q: Path)
    requires FileDigest(order, fs, reg, alg, p).Ok? && FileDigest(order, fs, reg, alg, q).Ok?
    ensures FileDigest(order, fs, reg, alg, p) == FileDigest(order, fs, reg, alg, q)
        <==> reg[alg](fs[p].content) == reg[alg](fs[q].content)
  {
    HexInjective(reg[alg](fs[p].content), reg[alg](fs[q].content));
  }

  /** Java `hash(File)`: open the stream, then hash it with the named algorithm, which looks the
      algorithm up before the first `read`. */
  method HashFile(fs: FS, reg: Registry, alg: string, p: Path) returns (r: Result<string, HashError>)
    ensures r == FileDigest(StreamFirst, fs, reg, alg, p)
  {
    if !Opens(fs, p) {
      return Err(NotReadable(p));
    }
    if alg !in reg {
      return Err(NoSuchAlgorithm(alg));
    }
    if !fs[p].readable {
      return Err(NotReadable(p));
    }
    var hex, _ := DigestStream(fs[p].content, reg[alg]);
    r := Ok(hex);
  }

  /** Kotlin `hash(f)`: obtain the digest instance, then read the whole file into it. */
  method HashFileBytewise(fs: FS, reg: Registry, alg: string, p: Path) returns (r: Result<string, HashError>)
    ensures r == FileDigest(AlgorithmFirst, fs, reg, alg, p)
  {
    if alg !in reg {
      return Err(NoSuchAlgorithm(alg));
    }
    if !Readable(fs, p) {
      return Err(NotReadable(p));
    }
    var hex, _ := DigestBytewise(fs[p].content, reg[alg]);
    r := Ok(hex);
  }
}
