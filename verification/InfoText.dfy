/**
 * The info dictionary in literal terms (internal/metainfo/info.go:26-104 and 142-183): which entry each field comes from,
 * what the length of a torrent with several files is, and the text that is hashed.
 */
module InfoText {
  import opened Bytes
  import opened Decimal
  import opened KeyOrder
  import opened Value
  import opened Metainfo
  import opened Grammar

  // ----- Fields -----

  predicate NumberAt(m: map<Key, Value>, k: Key, n: int) {
    k in m && m[k].Int? && m[k].n == n
  }

  /** Every component of a path is a string of the list, in order. */
  predicate FileFrom(v: Value, f: FileInfo) {
    && v.Dict? && NumberAt(v.entries, LENGTH, f.length)
    && PATH in v.entries && v.entries[PATH].List?
    && |v.entries[PATH].items| == |f.path|
    && forall j :: 0 <= j < |f.path| ==> v.entries[PATH].items[j] == Str(f.path[j])
  }

  lemma FileMeans(v: Value, i: nat)
    ensures FileOf(v, i).Ok? ==> FileFrom(v, FileOf(v, i).value)
  {
    hide PathFrom, LENGTH, PATH, FileFrom;
    if FileOf(v, i).Ok? {
      PathMeans(v.entries[PATH].items, i);
      var f := FileOf(v, i).value;
      FileParts(v, f);
    }
  }

  lemma PathMeans(items: seq<Value>, i: nat)
    ensures var r := PathFrom(items, i, 0, []);
            r.Ok? ==> |r.value| == |items| && forall j :: 0 <= j < |items| ==> items[j] == Str(r.value[j])
  {
  }

  lemma FileParts(v: Value, f: FileInfo)
    requires v.Dict? && HasInt(v.entries, LENGTH) && v.entries[LENGTH].n == f.length && HasList(v.entries, PATH)
    requires var items := v.entries[PATH].items;
             |f.path| == |items| && forall j :: 0 <= j < |items| ==> items[j] == Str(f.path[j])
    ensures FileFrom(v, f)
  {
    hide LENGTH, PATH;
  }

  /** The sum of all lengths, without overflow. */
  function Total(files: seq<FileInfo>): int {
    if files == [] then 0 else files[0].length + Total(files[1..])
  }

  /** Equal up to a multiple of 2^64. */
  predicate Congruent(a: int, b: int) {
    (a - b) % 0x1_0000_0000_0000_0000 == 0
  }

  lemma WrapMeans(n: int)
    ensures -0x8000_0000_0000_0000 <= Wrap(n) <= 0x7FFF_FFFF_FFFF_FFFF && Congruent(Wrap(n), n)
    ensures -0x8000_0000_0000_0000 <= n <= 0x7FFF_FFFF_FFFF_FFFF ==> Wrap(n) == n
  {
    var m := 0x1_0000_0000_0000_0000;
    var x := n + 0x8000_0000_0000_0000;
    assert x == x / m * m + x % m;
    assert Wrap(n) - n == (0 - x / m) * m;
    Multiple(0 - x / m, m);
  }

  lemma Multiple(k: int, m: int)
    requires m > 0
    ensures k * m % m == 0
  {
    var q, r := k * m / m, k * m % m;
    assert k * m == q * m + r;
    assert (k - q) * m == r;
    SmallMultiple(k - q, m);
  }

  lemma CongruentTwice(a: int, b: int, c: int)
    requires Congruent(a, b) && Congruent(b, c)
    ensures Congruent(a, c)
  {
  }

  lemma {:induction false} SumMeans(files: seq<FileInfo>, i: nat, acc: int64)
    requires i <= |files|
    ensures Congruent(SumFrom(files, i, acc), acc + Total(files[i..]))
    decreases |files| - i
  {
    hide Wrap;
    if i < |files| {
      var next := Wrap(acc + files[i].length);
      WrapMeans(acc + files[i].length);
      SumMeans(files, i + 1, next);
      assert files[i..][1..] == files[i + 1..];
      assert Congruent(next + Total(files[i + 1..]), acc + files[i].length + Total(files[i + 1..]));
      CongruentTwice(SumFrom(files, i, acc), next + Total(files[i + 1..]), acc + Total(files[i..]));
    }
  }

  /**
   * Where the fields come from: with a number under "length" there are no files and it is the length; otherwise the
   * files are those under "files", in order, and the length is the sum of theirs, up to overflow of 64 bits.
   */
  lemma FieldsMean(m: map<Key, Value>)
    ensures InfoOf(m).Ok? ==>
              var i := InfoOf(m).value;
              && NAME in m && m[NAME] == Str(i.name) && PIECES in m && m[PIECES] == Raw(i.pieces)
              && NumberAt(m, PIECE_LENGTH, i.pieceLength)
              && (if LENGTH in m && m[LENGTH].Int? then NumberAt(m, LENGTH, i.length) && i.files == []
                  else
                    && FILES in m && m[FILES].List? && |m[FILES].items| == |i.files|
                    && Congruent(i.length, Total(i.files)) && (Fits(Total(i.files)) ==> i.length == Total(i.files))
                    && forall k :: 0 <= k < |i.files| ==> FileFrom(m[FILES].items[k], i.files[k]))
  {
    hide FilesFrom, FileOf, SumFrom, FileFrom, Congruent, Fits;
    hide LENGTH, NAME, PIECE_LENGTH, PIECES, FILES, PATH;
    if InfoOf(m).Ok? && !HasInt(m, LENGTH) {
      var items := m[FILES].items;
      var files := FilesFrom(items, 0, []).value;
      assert files[0..] == files;
      SumMeans(files, 0, 0);
      SameIfFits(SumFrom(files, 0, 0), Total(files));
      forall k | 0 <= k < |items| ensures FileFrom(items[k], files[k]) {
        FileMeans(items[k], k);
      }
    }
  }

  /** An error names the first check that fails, of a fixed order. */
  lemma DefectsMean(m: map<Key, Value>)
    ensures InfoOf(m).Err? ==>
              var name, pieces := NAME in m && m[NAME].Str?, PIECES in m && m[PIECES].Raw?;
              var pieceLength, length := PIECE_LENGTH in m && m[PIECE_LENGTH].Int?, LENGTH in m && m[LENGTH].Int?;
              match InfoOf(m).error
              case NameNotString => !name
              case PieceLengthNotInt => name && !pieceLength
              case PiecesNotBytes => name && pieceLength && !pieces
              case NoLengthOrFiles => name && pieceLength && pieces && !length && !(FILES in m && m[FILES].List?)
              case e => name && pieceLength && pieces && !length && FILES in m && m[FILES].List? && FileDefect(m[FILES].items, e)
  {
    hide FilesFrom, FileDefect, LENGTH, NAME, PIECE_LENGTH, PIECES, FILES, PATH;
    if FILES in m && m[FILES].List? { FilesFail(m[FILES].items, 0, []); }
  }

  /** The first defect of the files is at file `i`, and in its path at component `j`. */
  ghost predicate FileDefect(items: seq<Value>, e: InfoError) {
    match e
    case FileNotDict(i) => GoodBefore(items, i) && !items[i].Dict?
    case FileLengthNotInt(i) =>
      GoodBefore(items, i) && items[i].Dict? && !(LENGTH in items[i].entries && items[i].entries[LENGTH].Int?)
    case FilePathNotList(i) =>
      && GoodBefore(items, i) && items[i].Dict? && LENGTH in items[i].entries && items[i].entries[LENGTH].Int?
      && !(PATH in items[i].entries && items[i].entries[PATH].List?)
    case PathNotString(i, j) =>
      && GoodBefore(items, i) && items[i].Dict? && LENGTH in items[i].entries && items[i].entries[LENGTH].Int?
      && PATH in items[i].entries && items[i].entries[PATH].List?
      && var path := items[i].entries[PATH].items;
         j < |path| && !path[j].Str? && forall k :: 0 <= k < j ==> path[k].Str?
    case _ => false
  }

  ghost predicate GoodBefore(items: seq<Value>, i: nat) {
    i < |items| && forall k :: 0 <= k < i ==> Good(items[k])
  }

  ghost predicate Good(v: Value) {
    exists f :: FileFrom(v, f)
  }

  predicate IsFileError(e: InfoError) {
    e.FileNotDict? || e.FileLengthNotInt? || e.FilePathNotList? || e.PathNotString?
  }

  lemma {:induction false} FilesFail(items: seq<Value>, i: nat, acc: seq<FileInfo>)
    requires i <= |items| && forall k :: 0 <= k < i ==> Good(items[k])
    ensures FilesFrom(items, i, acc).Err? ==>
              FileDefect(items, FilesFrom(items, i, acc).error) && IsFileError(FilesFrom(items, i, acc).error)
    decreases |items| - i
  {
    hide FileOf, FileFrom, FileDefect;
    if i < |items| {
      if FileOf(items[i], i).Ok? {
        FileMeans(items[i], i);
        assert Good(items[i]);
        FilesFail(items, i + 1, acc + [FileOf(items[i], i).value]);
      } else {
        FileFails(items, i);
      }
    }
  }

  lemma FileFails(items: seq<Value>, i: nat)
    requires i < |items| && GoodBefore(items, i) && FileOf(items[i], i).Err?
    ensures FileDefect(items, FileOf(items[i], i).error) && IsFileError(FileOf(items[i], i).error)
  {
    hide GoodBefore, PathFrom, LENGTH, PATH;
    var v := items[i];
    if v.Dict? && HasList(v.entries, PATH) { PathFails(v.entries[PATH].items, i, 0, []); }
  }

  lemma {:induction false} PathFails(path: seq<Value>, i: nat, j: nat, acc: seq<seq<byte>>)
    requires j <= |path| && forall k :: 0 <= k < j ==> path[k].Str?
    ensures var r := PathFrom(path, i, j, acc);
            r.Err? ==> r.error.PathNotString? && r.error.i == i && r.error.j < |path| && !path[r.error.j].Str?
                       && forall k :: 0 <= k < r.error.j ==> path[k].Str?
    decreases |path| - j
  {
    if j < |path| && path[j].Str? { PathFails(path, i, j + 1, acc + [path[j].s]); }
  }

  /** The number is an `int` of 64 bits. */
  predicate Fits(n: int) {
    -0x8000_0000_0000_0000 <= n <= 0x7FFF_FFFF_FFFF_FFFF
  }

  lemma SameIfFits(a: int64, b: int)
    requires Congruent(a, b)
    ensures Fits(b) ==> a == b
  {
    var m := 0x1_0000_0000_0000_0000;
    assert a - b == (a - b) / m * m;
  }

  // ----- The text -----

  // "6:length", "4:path", "4:name", "12:piece length", "6:pieces" and "5:files".
  const T_LENGTH: seq<byte> := [54, 58, 108, 101, 110, 103, 116, 104]
  const T_PATH: seq<byte> := [52, 58, 112, 97, 116, 104]
  const T_NAME: seq<byte> := [52, 58, 110, 97, 109, 101]
  const T_PIECE_LENGTH: seq<byte> := [49, 50, 58, 112, 105, 101, 99, 101, 32, 108, 101, 110, 103, 116, 104]
  const T_PIECES: seq<byte> := [54, 58, 112, 105, 101, 99, 101, 115]
  const T_FILES: seq<byte> := [53, 58, 102, 105, 108, 101, 115]

  lemma LiteralsAre()
    ensures LIT_LENGTH == T_LENGTH && LIT_PATH == T_PATH && LIT_NAME == T_NAME && LIT_FILES == T_FILES
    ensures LIT_PIECE_LENGTH == T_PIECE_LENGTH && LIT_PIECES == T_PIECES
  {
  }

  function StringText(s: seq<byte>): seq<byte> {
    Itoa(|s|) + [58] + s
  }

  function NumberText(n: int): seq<byte> {
    [105] + Itoa(n) + [101]
  }

  /** All components, first to last. */
  function PathPart(path: seq<seq<byte>>): seq<byte> {
    if path == [] then [] else StringText(path[0]) + PathPart(path[1..])
  }

  function OneFile(f: FileInfo): seq<byte> {
    [100] + T_LENGTH + NumberText(f.length) + T_PATH + [108] + PathPart(f.path) + [101, 101]
  }

  /** All files, first to last. */
  function FilePart(files: seq<FileInfo>): seq<byte> {
    if files == [] then [] else OneFile(files[0]) + FilePart(files[1..])
  }

  lemma {:induction false} PathPartLast(path: seq<seq<byte>>)
    requires path != []
    ensures PathPart(path) == PathPart(path[..|path| - 1]) + StringText(path[|path| - 1])
  {
    hide StringText;
    var n := |path| - 1;
    if n > 0 {
      PathPartLast(path[1..]);
      assert path[1..][..n - 1] == path[..n][1..] && path[1..][n - 1] == path[n];
    } else {
      assert path[1..] == [] && path[..n] == [];
    }
  }

  lemma {:induction false} PathPartIs(path: seq<seq<byte>>)
    ensures PathText(path) == PathPart(path)
  {
    hide PathPart, Itoa;
    if path == [] {
      assert PathPart([]) == [] by { NoParts(); }
    } else {
      PathPartIs(path[..|path| - 1]);
      PathPartLast(path);
      assert Counted(path[|path| - 1]) == StringText(path[|path| - 1]);
    }
  }

  lemma NoParts()
    ensures PathPart([]) == [] && FilePart([]) == []
  {
  }

  lemma {:induction false} FilePartLast(files: seq<FileInfo>)
    requires files != []
    ensures FilePart(files) == FilePart(files[..|files| - 1]) + OneFile(files[|files| - 1])
  {
    hide OneFile;
    var n := |files| - 1;
    if n > 0 {
      FilePartLast(files[1..]);
      assert files[1..][..n - 1] == files[..n][1..] && files[1..][n - 1] == files[n];
    } else {
      assert files[1..] == [] && files[..n] == [];
    }
  }

  lemma OneFileIs(f: FileInfo)
    ensures FileText(f) == OneFile(f)
  {
    hide Itoa, PathPart, PathText, T_LENGTH, T_PATH, LIT_LENGTH, LIT_PATH;
    PathPartIs(f.path);
    LiteralsAre();
    assert Number(f.length) == NumberText(f.length);
  }

  lemma {:induction false} FilePartIs(files: seq<FileInfo>)
    ensures FilesText(files) == FilePart(files)
  {
    hide FileText, OneFile, FilePart;
    if files == [] {
      NoParts();
    } else {
      FilePartIs(files[..|files| - 1]);
      FilePartLast(files);
      OneFileIs(files[|files| - 1]);
    }
  }

  /** The text that is hashed, for one file and for several. */
  lemma SerializedMeans(i: Info)
    ensures Serialized(i) ==
              [100]
              + (if i.files == [] then T_LENGTH + NumberText(i.length) else T_FILES + [108] + FilePart(i.files) + [101])
              + (T_NAME + StringText(i.name)) + (T_PIECE_LENGTH + NumberText(i.pieceLength))
              + (T_PIECES + StringText(i.pieces)) + [101]
  {
    hide Itoa, FilesText, FilePart;
    hide T_LENGTH, T_NAME, T_PIECE_LENGTH, T_PIECES, T_FILES, LIT_LENGTH, LIT_NAME, LIT_PIECE_LENGTH, LIT_PIECES, LIT_FILES;
    LiteralsAre();
    FilePartIs(i.files);
    assert Number(i.length) == NumberText(i.length) && Number(i.pieceLength) == NumberText(i.pieceLength);
    assert Counted(i.name) == StringText(i.name) && Counted(i.pieces) == StringText(i.pieces);
  }

  /** A torrent with the files "a" and "b/c". */
  function TwoFiles(): Info {
    Info(3, [100], 4, [255], [FileInfo(1, [[97]]), FileInfo(2, [[98], [99]])])
  }

  // "d6:lengthi1e4:pathl1:aee" and "d6:lengthi2e4:pathl1:b1:cee".
  const FILE_A: seq<byte> :=
    [100, 54, 58, 108, 101, 110, 103, 116, 104, 105, 49, 101, 52, 58, 112, 97, 116, 104, 108, 49, 58, 97, 101, 101]
  const FILE_B: seq<byte> :=
    [100, 54, 58, 108, 101, 110, 103, 116, 104, 105, 50, 101, 52, 58, 112, 97, 116, 104, 108, 49, 58, 98, 49, 58, 99, 101, 101]

  // "d5:filesl", "e4:name1:d", "12:piece lengthi4e" and "6:pieces1:".
  const BEFORE_FILES: seq<byte> := [100, 53, 58, 102, 105, 108, 101, 115, 108]
  const AFTER_FILES: seq<byte> := [101, 52, 58, 110, 97, 109, 101, 49, 58, 100]
  const PIECE_LENGTH_4: seq<byte> := [49, 50, 58, 112, 105, 101, 99, 101, 32, 108, 101, 110, 103, 116, 104, 105, 52, 101]
  const ONE_PIECE: seq<byte> := [54, 58, 112, 105, 101, 99, 101, 115, 49, 58, 255]

  /** Its text is "d5:filesld6:lengthi1e4:pathl1:aeed6:lengthi2e4:pathl1:b1:ceee4:name1:d12:piece lengthi4e6:pieces1:\xffe". */
  lemma TwoFilesText()
    ensures Serialized(TwoFiles()) == BEFORE_FILES + (FILE_A + FILE_B) + AFTER_FILES + PIECE_LENGTH_4 + ONE_PIECE + [101]
  {
    hide FilePart, T_NAME, T_FILES, T_PIECE_LENGTH, T_PIECES, FILE_A, FILE_B, BEFORE_FILES, AFTER_FILES, PIECE_LENGTH_4, ONE_PIECE;
    hide StringText, NumberText;
    var i := TwoFiles();
    SerializedMeans(i);
    TwoFilesPart();
    TwoFilesParts();
    Regroup([100], T_FILES + [108], FILE_A + FILE_B, [101], T_NAME + StringText([100]),
            T_PIECE_LENGTH + NumberText(4), T_PIECES + StringText([255]));
  }

  lemma Regroup(a: seq<byte>, b: seq<byte>, c: seq<byte>, d: seq<byte>, e: seq<byte>, f: seq<byte>, g: seq<byte>)
    ensures a + (b + c + d) + e + f + g + [101] == (a + b) + c + (d + e) + f + g + [101]
  {
  }

  lemma TwoFilesParts()
    ensures [100] + (T_FILES + [108]) == BEFORE_FILES
    ensures [101] + (T_NAME + StringText([100])) == AFTER_FILES
    ensures T_PIECE_LENGTH + NumberText(4) == PIECE_LENGTH_4
    ensures T_PIECES + StringText([255]) == ONE_PIECE
  {
    assert Itoa(1) == [49] && Itoa(4) == [52];
  }

  lemma TwoFilesPart()
    ensures FilePart(TwoFiles().files) == FILE_A + FILE_B
  {
    hide OneFile, FILE_A, FILE_B;
    var files := TwoFiles().files;
    FileA();
    FileB();
    assert files[1..] == [files[1]] && files[1..][1..] == [];
    assert FilePart(files[1..]) == OneFile(files[1]) + [];
  }

  lemma FileA()
    ensures OneFile(FileInfo(1, [[97]])) == FILE_A
  {
    hide PathPart, NumberText;
    PathA();
    NumberOne();
  }

  lemma NumberOne()
    ensures NumberText(1) == [105, 49, 101]
  {
    assert Itoa(1) == [49];
  }

  lemma PathA()
    ensures PathPart([[97]]) == [49, 58, 97]
  {
    assert Itoa(1) == [49];
    var path: seq<seq<byte>> := [[97]];
    assert path[1..] == [];
  }

  lemma FileB()
    ensures OneFile(FileInfo(2, [[98], [99]])) == FILE_B
  {
    hide PathPart, NumberText;
    PathB();
    NumberTwo();
  }

  lemma NumberTwo()
    ensures NumberText(2) == [105, 50, 101]
  {
    assert Itoa(2) == [50];
  }

  lemma PathB()
    ensures PathPart([[98], [99]]) == [49, 58, 98, 49, 58, 99]
  {
    assert Itoa(1) == [49];
    var path: seq<seq<byte>> := [[98], [99]];
    assert path[1..] == [path[1]] && path[1..][1..] == [];
    assert StringText([98]) == [49, 58, 98] && StringText([99]) == [49, 58, 99];
  }
}
