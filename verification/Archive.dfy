/**
 The transition image: a mount written as one byte string and read back through a buffered reader.

 `Parse` is the meaning of a byte string as an image. SHA-256 and the two Unicode path identities are parameters.
 */
module Archive {
  import opened Bytes
  import opened IntCodec
  import opened ArchivePath

  const MAGIC: seq<byte> := [84, 68, 83, 73, 77, 71, 49, 10]
  const ENTRY_SIZE: nat := 12
  const DIGEST_BYTES: nat := 32
  const MAX_PATH_BYTES: nat := 4096
  const MAX_ARCHIVE_FILES: nat := 1_000_000

  type Digest = d: seq<byte> | |d| == 32 witness seq(32, _ => 0)

  datatype Env = Env(sha256: seq<byte> -> Digest, normalize: Path -> Path, casefold: Path -> Path)

  datatype File = File(path: Path, data: seq<byte>)

  type Mount = map<Path, seq<byte>>

  datatype ArchiveError =
    | BadMagic | Truncated | BadEndMarker | TrailingBytes | PathTooLong | PathTruncated | UnsafePath
    | DuplicatePath | NormalizationCollision | CaseCollision | PathConflict
    | PayloadTruncated | DigestMismatch | TooManyFiles

  datatype Outcome = Ok(mount: Mount) | Err(error: ArchiveError)

  // ---- writing ----

  function EntryHeader(pathLen: nat, size: nat): (h: seq<byte>)
    ensures |h| == ENTRY_SIZE
  {
    BigEndian(4, pathLen) + BigEndian(8, size)
  }

  function EntryBytes(f: File, env: Env): seq<byte> {
    EntryHeader(|f.path|, |f.data|) + f.path + f.data + env.sha256(f.data)
  }

  function EntriesBytes(files: seq<File>, env: Env): seq<byte> {
    if files == [] then EntryHeader(0, 0)
    else EntryBytes(files[0], env) + EntriesBytes(files[1..], env)
  }

  /** The image of a list of files. */
  function Image(files: seq<File>, env: Env): seq<byte> {
    MAGIC + EntriesBytes(files, env)
  }

  // ---- reading ----

  datatype Progress = Progress(files: Mount, normalized: set<Path>, folded: set<Path>, count: nat)

  const START := Progress(map[], {}, {}, 0)

  predicate Under(dir: Path, p: Path) {
    dir + [SLASH] <= p
  }

  /** Why an entry's path is refused, given the entries before it. */
  function PathError(st: Progress, raw: seq<byte>, env: Env): Option<ArchiveError> {
    match SafeRelative(raw)
    case None => Some(UnsafePath)
    case Some(p) =>
      if p in st.files then Some(DuplicatePath)
      else if env.normalize(p) in st.normalized then Some(NormalizationCollision)
      else if env.casefold(env.normalize(p)) in st.folded then Some(CaseCollision)
      else if exists q :: q in st.files && (Under(p, q) || Under(q, p)) then Some(PathConflict)
      else None
  }

  function Add(st: Progress, f: File, env: Env): Progress {
    Progress(st.files[f.path := f.data], st.normalized + {env.normalize(f.path)},
             st.folded + {env.casefold(env.normalize(f.path))}, st.count + 1)
  }

  datatype Turn = Stop(outcome: Outcome) | Entry(file: File, rest: seq<byte>)

  /** What one header and what follows it mean. */
  function NextEntry(b: seq<byte>, st: Progress, env: Env): (t: Turn)
    ensures t.Entry? ==> |t.rest| < |b|
  {
    if |b| < ENTRY_SIZE then Stop(Err(Truncated))
    else
      var pathLen, size := FromBigEndian(b[..4]), FromBigEndian(b[4..12]);
      if pathLen == 0 then
        if size != 0 then Stop(Err(BadEndMarker))
        else if |b| > ENTRY_SIZE then Stop(Err(TrailingBytes))
        else Stop(Ok(st.files))
      else if pathLen > MAX_PATH_BYTES then Stop(Err(PathTooLong))
      else if |b| < 12 + pathLen then Stop(Err(PathTruncated))
      else
        var i := 12 + pathLen;
        var j := i + size;
        var bad := PathError(st, b[12..i], env);
        if bad.Some? then Stop(Err(bad.value))
        else if |b| < j then Stop(Err(PayloadTruncated))
        else if |b| < j + 32 || env.sha256(b[i..j]) != b[j..j + 32] then Stop(Err(DigestMismatch))
        else if st.count + 1 > MAX_ARCHIVE_FILES then Stop(Err(TooManyFiles))
        else Entry(File(SafeRelative(b[12..i]).value, b[i..j]), b[j + 32..])
  }

  /** The entries of an image from one header on. */
  function ParseEntries(b: seq<byte>, st: Progress, env: Env): Outcome
    decreases |b|
  {
    match NextEntry(b, st, env)
    case Stop(outcome) => outcome
    case Entry(f, rest) => ParseEntries(rest, Add(st, f, env), env)
  }

  function Parse(b: seq<byte>, env: Env): Outcome {
    if |b| < |MAGIC| || b[..|MAGIC|] != MAGIC then Err(BadMagic)
    else ParseEntries(b[|MAGIC|..], START, env)
  }

  // ---- no image is a prefix of another ----

  lemma SliceOfPrefix(b: seq<byte>, x: seq<byte>, i: nat, j: nat)
    requires i <= j <= |b|
    ensures (b + x)[i..j] == b[i..j] && (b + x)[j..] == b[j..] + x
  {
  }

  lemma NextEntryExtends(b: seq<byte>, x: seq<byte>, st: Progress, env: Env)
    ensures NextEntry(b, st, env).Entry? ==>
              NextEntry(b + x, st, env) == Entry(NextEntry(b, st, env).file, NextEntry(b, st, env).rest + x)
    ensures NextEntry(b, st, env).Stop? && NextEntry(b, st, env).outcome.Ok? && x != [] ==>
              NextEntry(b + x, st, env) == Stop(Err(TrailingBytes))
  {
    hide PathError, SafeRelative, FromBigEndian;
    if |b| >= 12 {
      SliceOfPrefix(b, x, 0, 4);
      SliceOfPrefix(b, x, 4, 12);
      var pathLen, size := FromBigEndian(b[..4]), FromBigEndian(b[4..12]);
      if |b| >= 12 + pathLen {
        SliceOfPrefix(b, x, 12, 12 + pathLen);
        if |b| >= 12 + pathLen + size + 32 {
          SliceOfPrefix(b, x, 12 + pathLen, 12 + pathLen + size);
          SliceOfPrefix(b, x, 12 + pathLen + size, 12 + pathLen + size + 32);
        }
      }
    }
  }

  /** An accepted image ends where its end marker ends: anything longer is refused. */
  lemma {:induction false} ExtensionRefused(b: seq<byte>, x: seq<byte>, st: Progress, env: Env)
    requires ParseEntries(b, st, env).Ok? && x != []
    ensures ParseEntries(b + x, st, env).Err?
    decreases |b|
  {
    hide NextEntry;
    NextEntryExtends(b, x, st, env);
    var t := NextEntry(b, st, env);
    if t.Entry? {
      ExtensionRefused(t.rest, x, Add(st, t.file, env), env);
    }
  }

  /** Anything shorter than an accepted image is refused too. */
  lemma PrefixRefused(b: seq<byte>, k: nat, st: Progress, env: Env)
    requires ParseEntries(b, st, env).Ok? && k < |b|
    ensures ParseEntries(b[..k], st, env).Err?
  {
    hide ParseEntries;
    if ParseEntries(b[..k], st, env).Ok? {
      assert b[..k] + b[k..] == b;
      ExtensionRefused(b[..k], b[k..], st, env);
    }
  }

  /** Every strict prefix and every extension of a valid image is rejected. */
  lemma ImagesArePrefixFree(b: seq<byte>, x: seq<byte>, k: nat, env: Env)
    requires Parse(b, env).Ok? && x != [] && k < |b|
    ensures Parse(b + x, env).Err?
    ensures Parse(b[..k], env).Err?
  {
    hide ParseEntries;
    var m := |MAGIC|;
    SliceOfPrefix(b, x, 0, m);
    ExtensionRefused(b[m..], x, START, env);
    if k >= m {
      assert b[..k][m..] == b[m..][..k - m];
      PrefixRefused(b[m..], k - m, START, env);
    }
  }

  // ---- an archived mount reads back ----

  /** What the writer demands of a file before it archives it. */
  predicate Encodable(f: File) {
    0 < |f.path| <= 4096 && |f.data| <= UINT64_MAX
  }

  /** The file under the path the reader gives it. */
  function Canon(f: File): File {
    match SafeRelative(f.path)
    case Some(p) => File(p, f.data)
    case None => f
  }

  function Canons(files: seq<File>): (r: seq<File>)
    ensures |r| == |files| && forall i :: 0 <= i < |files| ==> r[i] == Canon(files[i])
  {
    seq(|files|, i requires 0 <= i < |files| => Canon(files[i]))
  }

  /** Two files that can stand in one mount: different under both identities, and neither inside the other. */
  ghost predicate Apart(f: File, g: File, env: Env) {
    && env.normalize(f.path) != env.normalize(g.path)
    && env.casefold(env.normalize(f.path)) != env.casefold(env.normalize(g.path))
    && !Under(f.path, g.path) && !Under(g.path, f.path)
  }

  ghost predicate Admitted(files: seq<File>, k: nat, env: Env)
    requires k < |files|
  {
    && SafeRelative(files[k].path).Some?
    && k < 1_000_000
    && forall i :: 0 <= i < k ==> Apart(Canon(files[i]), Canon(files[k]), env)
  }

  /** At most a million files, all on safe relative paths, no two of which collide. */
  ghost predicate SafeMount(files: seq<File>, env: Env) {
    forall k :: 0 <= k < |files| ==> Admitted(files, k, env)
  }

  function MountOf(files: seq<File>): Mount {
    if files == [] then map[] else MountOf(files[..|files| - 1])[files[|files| - 1].path := files[|files| - 1].data]
  }

  /** The reader's progress after some files have been read. */
  ghost function After(files: seq<File>, env: Env): Progress {
    if files == [] then START else Add(After(files[..|files| - 1], env), files[|files| - 1], env)
  }

  lemma {:induction false} AfterHolds(files: seq<File>, env: Env)
    ensures After(files, env).files == MountOf(files) && After(files, env).count == |files|
    ensures forall p :: p in After(files, env).files ==> exists i :: 0 <= i < |files| && files[i].path == p
    ensures forall n :: n in After(files, env).normalized ==>
                          exists i :: 0 <= i < |files| && env.normalize(files[i].path) == n
    ensures forall n :: n in After(files, env).folded ==>
                          exists i :: 0 <= i < |files| && env.casefold(env.normalize(files[i].path)) == n
  {
    if files == [] {
    } else {
      AfterHolds(files[..|files| - 1], env);
    }
  }

  lemma {:induction false} AfterHas(files: seq<File>, i: nat, env: Env)
    requires i < |files|
    ensures files[i].path in After(files, env).files
    ensures env.normalize(files[i].path) in After(files, env).normalized
    ensures env.casefold(env.normalize(files[i].path)) in After(files, env).folded
  {
    if i == |files| - 1 {
    } else {
      AfterHas(files[..|files| - 1], i, env);
    }
  }

  /** What each refusal says about the files already read: the first of these that applies. */
  ghost predicate PathErrorMeans(e: ArchiveError, done: seq<File>, raw: Path, env: Env) {
    match SafeRelative(raw)
    case None => e == UnsafePath
    case Some(p) =>
      var same := exists i :: 0 <= i < |done| && done[i].path == p;
      var normal := exists i :: 0 <= i < |done| && env.normalize(done[i].path) == env.normalize(p);
      match e
      case DuplicatePath => same
      case NormalizationCollision => !same && normal
      case CaseCollision =>
        && !normal
        && exists i :: 0 <= i < |done| && env.casefold(env.normalize(done[i].path)) == env.casefold(env.normalize(p))
      case PathConflict =>
        && !normal
        && exists i :: 0 <= i < |done| && (Under(p, done[i].path) || Under(done[i].path, p))
      case _ => false
  }

  /** The reader's path checks refuse exactly the files that are not apart from one already read. */
  lemma PathErrorExact(done: seq<File>, f: File, env: Env)
    ensures PathError(After(done, env), f.path, env).None? <==>
            SafeRelative(f.path).Some? && forall i :: 0 <= i < |done| ==> Apart(done[i], Canon(f), env)
  {
    hide SafeRelative, After;
    var st := After(done, env);
    AfterHolds(done, env);
    if SafeRelative(f.path).Some? {
      var p := SafeRelative(f.path).value;
      if PathError(st, f.path, env).None? {
        forall i | 0 <= i < |done| ensures Apart(done[i], Canon(f), env) {
          AfterHas(done, i, env);
        }
      } else if forall i :: 0 <= i < |done| ==> Apart(done[i], Canon(f), env) {
        NoneRefused(done, p, env);
      }
    }
  }

  /** And each refusal means what it says. */
  lemma PathErrorKind(done: seq<File>, raw: Path, env: Env)
    requires PathError(After(done, env), raw, env).Some?
    ensures PathErrorMeans(PathError(After(done, env), raw, env).value, done, raw, env)
  {
    hide SafeRelative, After;
    var st := After(done, env);
    AfterHolds(done, env);
    forall i | 0 <= i < |done|
      ensures done[i].path in st.files && env.normalize(done[i].path) in st.normalized
    {
      AfterHas(done, i, env);
    }
  }

  lemma NoneRefused(done: seq<File>, p: Path, env: Env)
    requires forall i :: 0 <= i < |done| ==> Apart(done[i], File(p, []), env)
    ensures var st := After(done, env);
            && p !in st.files && env.normalize(p) !in st.normalized
            && env.casefold(env.normalize(p)) !in st.folded
            && forall q :: q in st.files ==> !Under(p, q) && !Under(q, p)
  {
    hide After;
    AfterHolds(done, env);
  }

  /** The reader undoes one entry of the writer. */
  lemma EntryReads(f: File, tail: seq<byte>, st: Progress, env: Env)
    requires Encodable(f)
    ensures NextEntry(EntryBytes(f, env) + tail, st, env) ==
            var bad := PathError(st, f.path, env);
            if bad.Some? then Stop(Err(bad.value))
            else if st.count + 1 > MAX_ARCHIVE_FILES then Stop(Err(TooManyFiles))
            else Entry(Canon(f), tail)
  {
    hide SafeRelative, FromBigEndian, BigEndian;
    var b := EntryBytes(f, env) + tail;
    var n, m := |f.path|, |f.data|;
    Pow256Values();
    BigEndianRoundTrip(4, n);
    BigEndianRoundTrip(8, m);
    assert b[..4] == BigEndian(4, n) && b[4..12] == BigEndian(8, m);
    assert b[12..12 + n] == f.path;
    assert b[12 + n..12 + n + m] == f.data;
    assert b[12 + n + m..12 + n + m + 32] == env.sha256(f.data);
    assert b[12 + n + m + 32..] == tail;
  }

  lemma EndReads(st: Progress, env: Env)
    ensures NextEntry(EntryHeader(0, 0), st, env) == Stop(Ok(st.files))
  {
    Pow256Values();
    BigEndianRoundTrip(4, 0);
    BigEndianRoundTrip(8, 0);
    assert EntryHeader(0, 0)[..4] == BigEndian(4, 0) && EntryHeader(0, 0)[4..12] == BigEndian(8, 0);
  }

  lemma {:induction false} ReadBack(all: seq<File>, k: nat, env: Env)
    requires k <= |all| && (forall i :: 0 <= i < |all| ==> Encodable(all[i]))
    requires forall i :: 0 <= i < k ==> Admitted(all, i, env)
    ensures var r := ParseEntries(EntriesBytes(all[k..], env), After(Canons(all[..k]), env), env);
            if SafeMount(all, env) then r == Ok(MountOf(Canons(all))) else r.Err?
    decreases |all| - k
  {
    hide NextEntry, PathError, EntryBytes, Canon, SafeRelative, Apart, After, MountOf;
    var done := Canons(all[..k]);
    var st := After(done, env);
    AfterHolds(done, env);
    if k == |all| {
      assert all[..k] == all;
      EndReads(st, env);
    } else {
      assert all[k..][1..] == all[k + 1..];
      EntryReads(all[k], EntriesBytes(all[k + 1..], env), st, env);
      PathErrorExact(done, all[k], env);
      if Admitted(all, k, env) {
        NextPrefix(all, k, env);
        ReadBack(all, k + 1, env);
      }
    }
  }

  lemma NextPrefix(all: seq<File>, k: nat, env: Env)
    requires k < |all|
    ensures After(Canons(all[..k + 1]), env) == Add(After(Canons(all[..k]), env), Canon(all[k]), env)
  {
    hide Canon;
    assert Canons(all[..k + 1])[..k] == Canons(all[..k]);
  }

  /** An image of a mount reads back as that mount exactly when the mount is safe; otherwise it is refused. */
  lemma ImageReadsBack(files: seq<File>, env: Env)
    requires forall i :: 0 <= i < |files| ==> Encodable(files[i])
    ensures if SafeMount(files, env) then Parse(Image(files, env), env) == Ok(MountOf(Canons(files)))
            else Parse(Image(files, env), env).Err?
    ensures (forall i :: 0 <= i < |files| ==> SafeRelative(files[i].path) == Some(files[i].path)) ==>
              Canons(files) == files
  {
    hide ParseEntries, EntriesBytes, MountOf, SafeMount;
    assert files[0..] == files;
    assert Canons(files[..0]) == [];
    ReadBack(files, 0, env);
    assert Image(files, env)[..8] == MAGIC && Image(files, env)[8..] == EntriesBytes(files, env);
  }

  // ---- what is accepted ----

  lemma HeaderReprints(b: seq<byte>)
    requires |b| >= 12
    ensures b[..12] == EntryHeader(FromBigEndian(b[..4]), FromBigEndian(b[4..12]))
    ensures FromBigEndian(b[4..12]) <= UINT64_MAX
  {
    Pow256Values();
    BigEndianReprints(b[..4]);
    BigEndianReprints(b[4..12]);
    assert b[..12] == b[..4] + b[4..12];
  }

  /** An entry that is read is the entry the writer would have written for it, under the path as it stood. */
  lemma EntryIsWritten(b: seq<byte>, st: Progress, env: Env) returns (f: File)
    requires NextEntry(b, st, env).Entry?
    ensures Encodable(f) && b == EntryBytes(f, env) + NextEntry(b, st, env).rest
  {
    hide SafeRelative, PathError, FromBigEndian, BigEndian, EntryHeader;
    HeaderReprints(b);
    var i := 12 + FromBigEndian(b[..4]);
    var j := i + FromBigEndian(b[4..12]);
    f := File(b[12..i], b[i..j]);
    assert b == b[..12] + b[12..i] + b[i..j] + b[j..j + 32] + b[j + 32..];
  }

  lemma EndIsWritten(b: seq<byte>, st: Progress, env: Env)
    requires NextEntry(b, st, env).Stop? && NextEntry(b, st, env).outcome.Ok?
    ensures b == EntryHeader(0, 0)
  {
    hide PathError, SafeRelative, EntryHeader, FromBigEndian;
    HeaderReprints(b);
    assert b[..12] == b;
  }

  lemma {:induction false} EntriesAreWritten(b: seq<byte>, st: Progress, env: Env) returns (files: seq<File>)
    requires ParseEntries(b, st, env).Ok?
    ensures forall i :: 0 <= i < |files| ==> Encodable(files[i])
    ensures b == EntriesBytes(files, env)
    decreases |b|
  {
    hide EntryBytes, EntryHeader, NextEntry, Encodable, Add;
    var t := NextEntry(b, st, env);
    if t.Stop? {
      EndIsWritten(b, st, env);
      files := [];
    } else {
      var f := EntryIsWritten(b, st, env);
      var rest := EntriesAreWritten(t.rest, Add(st, t.file, env), env);
      files := [f] + rest;
      assert files[1..] == rest;
    }
  }

  /** A byte string is accepted exactly when it is the image of a safe mount, and then it stands for that mount. */
  lemma AcceptedIsImage(b: seq<byte>, env: Env)
    ensures Parse(b, env).Ok? <==>
            exists files :: SafeMount(files, env) && b == Image(files, env)
                            && forall i :: 0 <= i < |files| ==> Encodable(files[i])
  {
    hide ParseEntries, EntriesBytes, SafeMount, Encodable;
    if Parse(b, env).Ok? {
      var files := EntriesAreWritten(b[8..], START, env);
      assert b == MAGIC + b[8..];
      ImageReadsBack(files, env);
    }
    if files: seq<File> :|
      SafeMount(files, env) && b == Image(files, env) && forall i :: 0 <= i < |files| ==> Encodable(files[i]) {
      ImageReadsBack(files, env);
    }
  }

  lemma {:induction false} MountPaths(files: seq<File>, p: Path)
    requires p in MountOf(files)
    ensures exists i :: 0 <= i < |files| && files[i].path == p
  {
    if files[|files| - 1].path == p {
    } else {
      MountPaths(files[..|files| - 1], p);
    }
  }

  /** Every path of an accepted image stays inside its directory: it is a list of plain names. */
  lemma AcceptedPathsAreNormal(b: seq<byte>, env: Env, p: Path)
    requires Parse(b, env).Ok? && p in Parse(b, env).mount
    ensures NormalPath(p)
  {
    hide Parse, MountOf, NormalPath, SafeRelative, Image;
    AcceptedIsImage(b, env);
    var files: seq<File> :|
      SafeMount(files, env) && b == Image(files, env) && forall i :: 0 <= i < |files| ==> Encodable(files[i]);
    ImageReadsBack(files, env);
    MountPaths(Canons(files), p);
    var i :| 0 <= i < |files| && Canons(files)[i].path == p;
    assert Admitted(files, i, env);
    AcceptedAreNormal(files[i].path);
  }
}
