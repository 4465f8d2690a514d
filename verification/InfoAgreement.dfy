/** The hand-written info serializer against the general encoder. */
module InfoAgreement {
  import opened Bytes
  import opened Decimal
  import opened KeyOrder
  import opened Value
  import opened RoundTrip
  import opened Metainfo

  const SINGLE_KEYS: seq<Key> := [LENGTH, NAME, PIECE_LENGTH, PIECES]
  const MULTI_KEYS: seq<Key> := [FILES, NAME, PIECE_LENGTH, PIECES]
  const FILE_KEYS: seq<Key> := [LENGTH, PATH]

  /** The condition on the info dictionary: the serialized keys, no others, and at least one file in multi-file form. */
  predicate OnlyKnownKeys(m: map<Key, Value>) {
    || m.Keys == {LENGTH, NAME, PIECE_LENGTH, PIECES}
    || (&& m.Keys == {FILES, NAME, PIECE_LENGTH, PIECES}
        && m[FILES].List?
        && m[FILES].items != []
        && forall i :: 0 <= i < |m[FILES].items| ==>
             m[FILES].items[i].Dict? && m[FILES].items[i].entries.Keys == {LENGTH, PATH})
  }

  // ----- The dictionary an Info stands for -----

  function PathItems(path: seq<seq<byte>>): (r: seq<Value>)
    ensures |r| == |path| && forall j :: 0 <= j < |path| ==> r[j] == Str(path[j])
  {
    seq(|path|, j requires 0 <= j < |path| => Str(path[j]))
  }

  function FileEntries(f: FileInfo): map<Key, Value> {
    map[LENGTH := Int(f.length), PATH := List(PathItems(f.path))]
  }

  function FileItems(files: seq<FileInfo>): (r: seq<Value>)
    ensures |r| == |files| && forall i :: 0 <= i < |files| ==> r[i] == Dict(FileEntries(files[i]))
  {
    seq(|files|, i requires 0 <= i < |files| => Dict(FileEntries(files[i])))
  }

  function Entries(i: Info): map<Key, Value> {
    map[NAME := Str(i.name), PIECE_LENGTH := Int(i.pieceLength), PIECES := Raw(i.pieces)]
    + if i.files == [] then map[LENGTH := Int(i.length)] else map[FILES := List(FileItems(i.files))]
  }

  // ----- Key order -----

  lemma PieceLengthBeforePieces()
    ensures KeyLess(PIECE_LENGTH, PIECES)
  {
    assert KeyLess(PIECE_LENGTH[5..], PIECES[5..]);
    assert KeyLess(PIECE_LENGTH[4..], PIECES[4..]);
    assert KeyLess(PIECE_LENGTH[3..], PIECES[3..]);
    assert KeyLess(PIECE_LENGTH[2..], PIECES[2..]);
    assert KeyLess(PIECE_LENGTH[1..], PIECES[1..]);
  }

  lemma KeyFacts()
    ensures KeyLess(LENGTH, NAME) && KeyLess(FILES, NAME) && KeyLess(LENGTH, PATH)
    ensures KeyLess(NAME, PIECE_LENGTH) && KeyLess(NAME, PIECES) && KeyLess(PIECE_LENGTH, PIECES)
    ensures KeyLess(LENGTH, PIECE_LENGTH) && KeyLess(LENGTH, PIECES)
    ensures KeyLess(FILES, PIECE_LENGTH) && KeyLess(FILES, PIECES)
    ensures LENGTH != FILES
  {
    PieceLengthBeforePieces();
    assert LENGTH[0] != FILES[0];
  }

  lemma KnownOrders()
    ensures SortedKeys({LENGTH, NAME, PIECE_LENGTH, PIECES}) == SINGLE_KEYS
    ensures SortedKeys({FILES, NAME, PIECE_LENGTH, PIECES}) == MULTI_KEYS
    ensures SortedKeys({LENGTH, PATH}) == FILE_KEYS
  {
    hide LENGTH, NAME, PIECE_LENGTH, PIECES, FILES, PATH, KeyLess;
    KeyFacts();
    ListingIs(SINGLE_KEYS, {LENGTH, NAME, PIECE_LENGTH, PIECES});
    ListingIs(MULTI_KEYS, {FILES, NAME, PIECE_LENGTH, PIECES});
    ListingIs(FILE_KEYS, {LENGTH, PATH});
  }

  /** The keys of the dictionaries built here are pairwise different. */
  lemma KeysDiffer()
    ensures LENGTH != PATH && LENGTH != NAME && LENGTH != PIECE_LENGTH && LENGTH != PIECES && LENGTH != FILES
    ensures FILES != NAME && FILES != PIECE_LENGTH && FILES != PIECES
    ensures NAME != PIECE_LENGTH && NAME != PIECES && PIECE_LENGTH != PIECES
  {
    assert LENGTH[0] == 108 && FILES[0] == 102 && NAME[0] == 110;
    assert PIECE_LENGTH[0] == PIECES[0] == PATH[0] == 112 && |PIECE_LENGTH| == 12 && |PIECES| == 6;
  }

  lemma Literals()
    ensures EncStr(LENGTH) == LIT_LENGTH && EncStr(NAME) == LIT_NAME && EncStr(PIECES) == LIT_PIECES
    ensures EncStr(FILES) == LIT_FILES && EncStr(PATH) == LIT_PATH && EncStr(PIECE_LENGTH) == LIT_PIECE_LENGTH
  {
    assert Itoa(4) == [52] && Itoa(5) == [53] && Itoa(6) == [54];
    assert Itoa(12) == [49, 50] by { assert Digits(1) == [49]; }
  }

  lemma ListingIs(ks: seq<Key>, s: set<Key>)
    requires Lists(ks, s)
    ensures SortedKeys(s) == ks
  {
    SortedKeysLists(s);
    ListingUnique(ks, SortedKeys(s), s);
  }

  // ----- The serializer writes the encoding of that dictionary -----

  lemma StrEncodes(s: seq<byte>)
    ensures Supported(Str(s)) && Enc(Str(s)) == Counted(s)
  {
  }

  lemma {:induction false} PathAgrees(path: seq<seq<byte>>)
    ensures ItemsSupported(PathItems(path)) && EncItems(PathItems(path)) == PathText(path)
  {
    if path != [] {
      hide Enc, Counted, PathItems;
      var front, last := path[..|path| - 1], path[|path| - 1];
      StrEncodes(last);
      PathAgrees(front);
      EncItemsSnoc(PathItems(front), Str(last));
      assert PathItems(path) == PathItems(front) + [Str(last)];
    }
  }

  lemma TwoEntries(v: Value, a: Key, b: Key)
    requires EntriesSupported(v, [a, b])
    ensures EntriesSupported(v, [a]) && EntriesSupported(v, [b])
    ensures EncEntries(v, [a, b]) == EncEntry(v, a) + EncEntry(v, b)
  {
    hide EncEntry;
    assert [a, b][0] == a && [a, b][1] == b;
    assert [a, b][1..] == [b] && [b][1..] == [];
    assert EncEntries(v, [b]) == EncEntry(v, b);
  }

  lemma FourEntries(v: Value, a: Key, b: Key, c: Key, d: Key)
    requires EntriesSupported(v, [a, b, c, d])
    ensures EntriesSupported(v, [a]) && EntriesSupported(v, [b]) && EntriesSupported(v, [c]) && EntriesSupported(v, [d])
    ensures EncEntries(v, [a, b, c, d]) == EncEntry(v, a) + EncEntry(v, b) + EncEntry(v, c) + EncEntry(v, d)
  {
    hide EncEntry;
    var all := [a, b, c, d];
    assert all[0] == a && all[1] == b && all[2] == c && all[3] == d;
    assert all[1..] == [b, c, d] && [b, c, d][1..] == [c, d];
    assert EntriesSupported(v, [b, c, d]) && EntriesSupported(v, [c, d]);
    TwoEntries(v, c, d);
  }

  lemma FileAgrees(f: FileInfo)
    ensures Supported(Dict(FileEntries(f))) && Enc(Dict(FileEntries(f))) == FileText(f)
  {
    hide LENGTH, PATH, LIT_LENGTH, LIT_PATH, Itoa, EncStr, EncItems, PathText, PathItems, SINGLE_KEYS, MULTI_KEYS;
    KeysDiffer();
    Literals();
    KnownOrders();
    var v := Dict(FileEntries(f));
    PathAgrees(f.path);
    ListSupported(PathItems(f.path));
    assert v.entries.Keys == {LENGTH, PATH};
    TwoEntries(v, LENGTH, PATH);
    FileConcat(LIT_LENGTH + Number(f.length), LIT_PATH, PathText(f.path));
  }

  lemma ListSupported(items: seq<Value>)
    requires ItemsSupported(items)
    ensures Supported(List(items))
  {
  }

  lemma FileConcat(length: seq<byte>, path: seq<byte>, text: seq<byte>)
    ensures [CHAR_D] + (length + (path + ([CHAR_L] + text + [CHAR_E]))) + [CHAR_E]
         == [CHAR_D] + length + path + [CHAR_L] + text + [CHAR_E, CHAR_E]
  {
  }

  lemma FileItemsSnoc(files: seq<FileInfo>)
    requires files != []
    ensures FileItems(files) == FileItems(files[..|files| - 1]) + [Dict(FileEntries(files[|files| - 1]))]
  {
    hide FileEntries, FileItems;
    var front := files[..|files| - 1];
    var x, y := FileItems(files), FileItems(front) + [Dict(FileEntries(files[|files| - 1]))];
    assert |x| == |y|;
    forall i | 0 <= i < |x| ensures x[i] == y[i] {
      if i < |front| { assert front[i] == files[i]; }
    }
  }

  lemma {:induction false} FilesAgree(files: seq<FileInfo>)
    ensures ItemsSupported(FileItems(files)) && EncItems(FileItems(files)) == FilesText(files)
  {
    hide Enc, FileText, FileEntries, Supported, FileItems;
    if files != [] {
      hide EncItems;
      var front, last := files[..|files| - 1], files[|files| - 1];
      FilesAgree(front);
      FileAgrees(last);
      EncItemsSnoc(FileItems(front), Dict(FileEntries(last)));
      FileItemsSnoc(files);
    }
  }

  lemma InfoEntriesSupported(i: Info)
    ensures Supported(Dict(Entries(i)))
  {
    hide LENGTH, NAME, PIECE_LENGTH, PIECES, FILES;
    FilesAgree(i.files);
    ListSupported(FileItems(i.files));
  }

  lemma CommonEntries(i: Info)
    ensures var v := Dict(Entries(i));
            && EntriesSupported(v, [NAME]) && EncEntry(v, NAME) == LIT_NAME + Counted(i.name)
            && EntriesSupported(v, [PIECE_LENGTH]) && EncEntry(v, PIECE_LENGTH) == LIT_PIECE_LENGTH + Number(i.pieceLength)
            && EntriesSupported(v, [PIECES]) && EncEntry(v, PIECES) == LIT_PIECES + Counted(i.pieces)
  {
    hide LENGTH, NAME, PIECE_LENGTH, PIECES, FILES, LIT_NAME, LIT_PIECES, LIT_PIECE_LENGTH, Itoa, FileItems;
    KeysDiffer();
    Literals();
  }

  lemma FirstEntryAgrees(i: Info)
    ensures var v, k := Dict(Entries(i)), if i.files == [] then LENGTH else FILES;
            && EntriesSupported(v, [k])
            && EncEntry(v, k) == if i.files == [] then LIT_LENGTH + Number(i.length)
                                 else LIT_FILES + [CHAR_L] + FilesText(i.files) + [CHAR_E]
  {
    hide LENGTH, NAME, PIECE_LENGTH, PIECES, FILES, LIT_LENGTH, LIT_FILES, Itoa, EncStr, EncItems, FilesText, FileItems;
    KeysDiffer();
    Literals();
    FilesAgree(i.files);
    ListSupported(FileItems(i.files));
    if i.files != [] {
      ListConcat(LIT_FILES, FilesText(i.files));
    }
  }

  lemma ListConcat(key: seq<byte>, text: seq<byte>)
    ensures key + ([CHAR_L] + text + [CHAR_E]) == key + [CHAR_L] + text + [CHAR_E]
  {
  }

  lemma SerializesEntries(i: Info)
    ensures Supported(Dict(Entries(i))) && Serialized(i) == Enc(Dict(Entries(i)))
  {
    hide LENGTH, NAME, PIECE_LENGTH, PIECES, FILES, LIT_LENGTH, LIT_FILES, LIT_NAME, LIT_PIECES, LIT_PIECE_LENGTH;
    hide Itoa, EncStr, EncItems, FilesText, FileItems, Counted, Number, EncEntry, EncEntries;
    var v := Dict(Entries(i));
    var k := if i.files == [] then LENGTH else FILES;
    InfoEntriesSupported(i);
    CommonEntries(i);
    FirstEntryAgrees(i);
    KnownOrders();
    assert v.entries.Keys == {k, NAME, PIECE_LENGTH, PIECES};
    PartsSupported(v);
    FourEntries(v, k, NAME, PIECE_LENGTH, PIECES);
    InfoConcat(EncEntry(v, k), EncEntry(v, NAME), EncEntry(v, PIECE_LENGTH), EncEntry(v, PIECES));
  }

  lemma InfoConcat(a: seq<byte>, b: seq<byte>, c: seq<byte>, d: seq<byte>)
    ensures [CHAR_D] + (a + b + c + d) + [CHAR_E] == [CHAR_D] + a + b + c + d + [CHAR_E]
  {
  }

  // ----- When that dictionary is the one that was read -----

  lemma FileAsRead(v: Value, i: nat, f: FileInfo)
    requires FileOf(v, i) == Ok(f) && v.entries.Keys == {LENGTH, PATH}
    ensures Dict(FileEntries(f)) == v
  {
    hide LENGTH, PATH;
    KeysDiffer();
    var m := v.entries;
    assert PathItems(f.path) == m[PATH].items;
    assert FileEntries(f).Keys == m.Keys;
    assert FileEntries(f) == m;
  }

  lemma FileAt(items: seq<Value>, files: seq<FileInfo>, i: nat)
    requires i < |items| && FilesFrom(items, 0, []) == Ok(files)
    ensures |files| == |items| && FileOf(items[i], i) == Ok(files[i])
  {
    hide FileOf, FilesFrom;
  }

  lemma FilesAsRead(items: seq<Value>, files: seq<FileInfo>)
    requires FilesFrom(items, 0, []) == Ok(files)
    requires forall i :: 0 <= i < |items| ==> items[i].Dict? && items[i].entries.Keys == {LENGTH, PATH}
    ensures FileItems(files) == items
  {
    hide LENGTH, PATH, FileOf, FileEntries, FilesFrom, FileItems;
    forall i | 0 <= i < |items| ensures FileItems(files)[i] == items[i] {
      FileAt(items, files, i);
      FileAsRead(items[i], i, files[i]);
    }
  }

  lemma EntriesAsRead(m: map<Key, Value>)
    requires InfoOf(m).Ok? && OnlyKnownKeys(m)
    ensures Entries(InfoOf(m).value) == m
  {
    hide LENGTH, NAME, PIECE_LENGTH, PIECES, FILES, PATH, FileItems, FilesFrom;
    KeysDiffer();
    var info := InfoOf(m).value;
    if LENGTH !in m.Keys {
      FilesAsRead(m[FILES].items, info.files);
      assert info.files != [];
    } else {
      assert FILES !in m.Keys;
    }
    assert Entries(info).Keys == m.Keys;
  }

  lemma FileOfIsDict(v: Value, i: nat)
    ensures FileOf(v, i).Ok? ==> v.Dict?
  {
  }

  lemma SameFileKeys(items: seq<Value>, files: seq<FileInfo>, i: nat)
    requires i < |items| && FilesFrom(items, 0, []) == Ok(files) && NormItems(FileItems(files)) == NormItems(items)
    ensures items[i].Dict? && items[i].entries.Keys == {LENGTH, PATH}
  {
    hide LENGTH, PATH, FilesFrom, NormItems, FileOf, PathItems, FileItems;
    FileOfIsDict(items[i], i);
    NormItemAt(items, i);
    NormItemAt(FileItems(files), i);
    FileAt(items, files, i);
    assert items[i].entries.Keys == Norm(items[i]).entries.Keys == Norm(Dict(FileEntries(files[i]))).entries.Keys;
    assert FileEntries(files[i]).Keys == {LENGTH, PATH};
  }

  lemma SameNormSameKeys(m: map<Key, Value>)
    requires InfoOf(m).Ok? && Norm(Dict(Entries(InfoOf(m).value))) == Norm(Dict(m))
    ensures OnlyKnownKeys(m)
  {
    hide LENGTH, NAME, PIECE_LENGTH, PIECES, FILES, PATH, FileItems, FilesFrom, NormItems;
    KeysDiffer();
    var info := InfoOf(m).value;
    var e := Entries(info);
    assert m.Keys == Norm(Dict(m)).entries.Keys == Norm(Dict(e)).entries.Keys == e.Keys;
    if info.files == [] {
      assert e.Keys == {LENGTH, NAME, PIECE_LENGTH, PIECES};
    } else {
      assert e.Keys == {FILES, NAME, PIECE_LENGTH, PIECES};
      var items := m[FILES].items;
      assert Norm(e[FILES]) == Norm(m[FILES]) by {
        assert Norm(Dict(e)).entries[FILES] == Norm(Dict(m)).entries[FILES];
      }
      assert FilesFrom(items, 0, []) == Metainfo.Ok(info.files);
      forall i | 0 <= i < |items| ensures items[i].Dict? && items[i].entries.Keys == {LENGTH, PATH} {
        SameFileKeys(items, info.files, i);
      }
    }
  }

  /**
   * The bytes that are hashed into the info hash are the bencoding of the dictionary that was read exactly when
   * that dictionary holds the known keys and nothing else.
   */
  lemma InfoHashInput(m: map<Key, Value>)
    requires InfoOf(m).Ok? && |Serialized(InfoOf(m).value)| <= INT_MAX
    ensures (Supported(Dict(m)) && Enc(Dict(m)) == Serialized(InfoOf(m).value)) <==> OnlyKnownKeys(m)
  {
    var info := InfoOf(m).value;
    SerializesEntries(info);
    if OnlyKnownKeys(m) {
      EntriesAsRead(m);
    } else if Supported(Dict(m)) && Enc(Dict(m)) == Serialized(info) {
      assert Enc(Dict(m)) + [] == Enc(Dict(Entries(info))) + [];
      PrefixCode(Dict(m), [], Dict(Entries(info)), []);
      SameNormSameKeys(m);
    }
  }
}
