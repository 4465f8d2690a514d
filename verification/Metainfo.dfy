/** internal/metainfo/info.go: reading the info dictionary, and the hand-written serializer hashed for the info hash. */
module Metainfo {
  import opened Bytes
  import opened Decimal
  import opened KeyOrder
  import opened Value

  // The dictionary keys, in ASCII.
  const LENGTH: Key := [108, 101, 110, 103, 116, 104]
  const NAME: Key := [110, 97, 109, 101]
  const PIECE_LENGTH: Key := [112, 105, 101, 99, 101, 32, 108, 101, 110, 103, 116, 104]
  const PIECES: Key := [112, 105, 101, 99, 101, 115]
  const FILES: Key := [102, 105, 108, 101, 115]
  const PATH: Key := [112, 97, 116, 104]

  datatype FileInfo = FileInfo(length: int64, path: seq<seq<byte>>)

  datatype Info = Info(length: int64, name: seq<byte>, pieceLength: int64, pieces: seq<byte>, files: seq<FileInfo>)

  datatype InfoError =
    | NameNotString
    | PieceLengthNotInt
    | PiecesNotBytes
    | NoLengthOrFiles
    | FileNotDict(i: nat)
    | FileLengthNotInt(i: nat)
    | FilePathNotList(i: nat)
    | PathNotString(i: nat, j: nat)

  datatype Result<+T> = Ok(value: T) | Err(error: InfoError)

  /** Addition on Go's `int`. */
  function Wrap(n: int): int64 {
    (n - INT_MIN) % (INT_MAX - INT_MIN + 1) + INT_MIN
  }

  // ----- What NewInfo computes -----

  /** The path components from index `j` on, of file `i`. */
  function PathFrom(items: seq<Value>, i: nat, j: nat, acc: seq<seq<byte>>): (r: Result<seq<seq<byte>>>)
    requires j <= |items|
    ensures r.Ok? ==> acc <= r.value && |r.value| == |acc| + |items| - j
    ensures r.Ok? ==> forall k :: j <= k < |items| ==> items[k] == Str(r.value[|acc| + k - j])
    decreases |items| - j
  {
    if j == |items| then Ok(acc)
    else if !items[j].Str? then Err(PathNotString(i, j))
    else PathFrom(items, i, j + 1, acc + [items[j].s])
  }

  predicate HasInt(m: map<Key, Value>, k: Key) {
    k in m && m[k].Int?
  }

  predicate HasList(m: map<Key, Value>, k: Key) {
    k in m && m[k].List?
  }

  function FileOf(v: Value, i: nat): Result<FileInfo> {
    if !v.Dict? then Err(FileNotDict(i))
    else if !HasInt(v.entries, LENGTH) then Err(FileLengthNotInt(i))
    else if !HasList(v.entries, PATH) then Err(FilePathNotList(i))
    else
      match PathFrom(v.entries[PATH].items, i, 0, [])
      case Err(e) => Err(e)
      case Ok(path) => Ok(FileInfo(v.entries[LENGTH].n, path))
  }

  /** The files from index `i` on. */
  function FilesFrom(items: seq<Value>, i: nat, acc: seq<FileInfo>): (r: Result<seq<FileInfo>>)
    requires i <= |items|
    ensures r.Ok? ==> acc <= r.value && |r.value| == |acc| + |items| - i
    ensures r.Ok? ==> forall k :: i <= k < |items| ==> FileOf(items[k], k) == Ok(r.value[|acc| + k - i])
    decreases |items| - i
  {
    if i == |items| then Ok(acc)
    else
      match FileOf(items[i], i)
      case Err(e) => Err(e)
      case Ok(f) => FilesFrom(items, i + 1, acc + [f])
  }

  function SumFrom(files: seq<FileInfo>, i: nat, acc: int64): int64
    requires i <= |files|
    decreases |files| - i
  {
    if i == |files| then acc else SumFrom(files, i + 1, Wrap(acc + files[i].length))
  }

  function InfoOf(m: map<Key, Value>): Result<Info> {
    if !(NAME in m && m[NAME].Str?) then Err(NameNotString)
    else if !HasInt(m, PIECE_LENGTH) then Err(PieceLengthNotInt)
    else if !(PIECES in m && m[PIECES].Raw?) then Err(PiecesNotBytes)
    else if HasInt(m, LENGTH) then Ok(Info(m[LENGTH].n, m[NAME].s, m[PIECE_LENGTH].n, m[PIECES].b, []))
    else if HasList(m, FILES) then
      match FilesFrom(m[FILES].items, 0, [])
      case Err(e) => Err(e)
      case Ok(files) => Ok(Info(SumFrom(files, 0, 0), m[NAME].s, m[PIECE_LENGTH].n, m[PIECES].b, files))
    else Err(NoLengthOrFiles)
  }

  // ----- What serializeInfo writes -----

  /** `"%d:%s"` with the length of the text. */
  function Counted(s: seq<byte>): seq<byte> {
    Itoa(|s|) + [COLON] + s
  }

  /** `"i%de"`. */
  function Number(n: int): seq<byte> {
    [CHAR_I] + Itoa(n) + [CHAR_E]
  }

  // The literal prefixes of the format strings.
  const LIT_LENGTH: seq<byte> := [54, 58] + LENGTH
  const LIT_NAME: seq<byte> := [52, 58] + NAME
  const LIT_PIECE_LENGTH: seq<byte> := [49, 50, 58] + PIECE_LENGTH
  const LIT_PIECES: seq<byte> := [54, 58] + PIECES
  const LIT_FILES: seq<byte> := [53, 58] + FILES
  const LIT_PATH: seq<byte> := [52, 58] + PATH

  function PathText(path: seq<seq<byte>>): seq<byte> {
    if path == [] then [] else PathText(path[..|path| - 1]) + Counted(path[|path| - 1])
  }

  function FileText(f: FileInfo): seq<byte> {
    [CHAR_D] + LIT_LENGTH + Number(f.length) + LIT_PATH + [CHAR_L] + PathText(f.path) + [CHAR_E, CHAR_E]
  }

  function FilesText(files: seq<FileInfo>): seq<byte> {
    if files == [] then [] else FilesText(files[..|files| - 1]) + FileText(files[|files| - 1])
  }

  function Serialized(i: Info): seq<byte> {
    var head :=
      if i.files == [] then LIT_LENGTH + Number(i.length)
      else LIT_FILES + [CHAR_L] + FilesText(i.files) + [CHAR_E];
    [CHAR_D] + head + (LIT_NAME + Counted(i.name)) + (LIT_PIECE_LENGTH + Number(i.pieceLength))
    + (LIT_PIECES + Counted(i.pieces)) + [CHAR_E]
  }

  // ----- The source's loops -----

  method ParseFiles(items: seq<Value>) returns (r: Result<seq<FileInfo>>)
    ensures r == FilesFrom(items, 0, [])
  {
    var files: seq<FileInfo> := [];
    var i := 0;
    while i < |items|
      invariant 0 <= i <= |items|
      invariant FilesFrom(items, 0, []) == FilesFrom(items, i, files)
    {
      var file := items[i];
      if !file.Dict? {
        return Err(FileNotDict(i));
      }
      if !HasInt(file.entries, LENGTH) {
        return Err(FileLengthNotInt(i));
      }
      if !HasList(file.entries, PATH) {
        return Err(FilePathNotList(i));
      }
      var components := file.entries[PATH].items;
      var path: seq<seq<byte>> := [];
      var j := 0;
      while j < |components|
        invariant 0 <= j <= |components|
        invariant PathFrom(components, i, 0, []) == PathFrom(components, i, j, path)
      {
        if !components[j].Str? {
          return Err(PathNotString(i, j));
        }
        path := path + [components[j].s];
        j := j + 1;
      }
      files := files + [FileInfo(file.entries[LENGTH].n, path)];
      i := i + 1;
    }
    r := Ok(files);
  }

  method NewInfo(m: map<Key, Value>) returns (r: Result<Info>)
    ensures r == InfoOf(m)
  {
    if !(NAME in m && m[NAME].Str?) {
      return Err(NameNotString);
    }
    if !HasInt(m, PIECE_LENGTH) {
      return Err(PieceLengthNotInt);
    }
    if !(PIECES in m && m[PIECES].Raw?) {
      return Err(PiecesNotBytes);
    }
    var info := Info(0, m[NAME].s, m[PIECE_LENGTH].n, m[PIECES].b, []);
    if HasInt(m, LENGTH) {
      info := info.(length := m[LENGTH].n);
    } else if HasList(m, FILES) {
      var files := ParseFiles(m[FILES].items);
      if files.Err? {
        return Err(files.error);
      }
      info := info.(files := files.value);
      var length: int64 := 0;
      var i := 0;
      while i < |files.value|
        invariant 0 <= i <= |files.value|
        invariant SumFrom(files.value, 0, 0) == SumFrom(files.value, i, length)
      {
        length := Wrap(length + files.value[i].length);
        i := i + 1;
      }
      info := info.(length := length);
    } else {
      return Err(NoLengthOrFiles);
    }
    r := Ok(info);
  }

  method SerializeInfo(info: Info) returns (r: seq<byte>)
    ensures r == Serialized(info)
  {
    hide Counted, Number;
    var head: seq<byte>;
    if info.files == [] {
      head := LIT_LENGTH + Number(info.length);
    } else {
      var files: seq<byte> := [];
      var i := 0;
      while i < |info.files|
        invariant 0 <= i <= |info.files|
        invariant files == FilesText(info.files[..i])
      {
        var path := info.files[i].path;
        var components: seq<byte> := [];
        var j := 0;
        while j < |path|
          invariant 0 <= j <= |path|
          invariant components == PathText(path[..j])
        {
          assert path[..j + 1][..j] == path[..j];
          components := components + Counted(path[j]);
          j := j + 1;
        }
        assert path[..j] == path;
        var file := [CHAR_D] + LIT_LENGTH + Number(info.files[i].length) + LIT_PATH + [CHAR_L] + components + [CHAR_E, CHAR_E];
        assert info.files[..i + 1][..i] == info.files[..i];
        files := files + file;
        i := i + 1;
      }
      assert info.files[..i] == info.files;
      head := LIT_FILES + [CHAR_L] + files + [CHAR_E];
    }
    r := [CHAR_D] + head;
    r := r + (LIT_NAME + Counted(info.name));
    r := r + (LIT_PIECE_LENGTH + Number(info.pieceLength));
    r := r + (LIT_PIECES + Counted(info.pieces));
    r := r + [CHAR_E];
  }
}
