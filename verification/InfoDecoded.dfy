/**
 * NewInfo (internal/metainfo/info.go:26-104) on what the decoder returns: the decoder makes a byte string a Go string
 * exactly if it is valid UTF-8, and NewInfo insists on one or the other.
 */
module InfoDecoded {
  import opened Bytes
  import opened KeyOrder
  import opened Value
  import opened Decoder
  import opened RoundTrip
  import opened Metainfo

  predicate Utf8Text(v: Value) {
    (v.Str? && Utf8Valid(v.s)) || (v.Raw? && Utf8Valid(v.b))
  }

  predicate BinaryText(v: Value) {
    (v.Str? && !Utf8Valid(v.s)) || (v.Raw? && !Utf8Valid(v.b))
  }

  /** What the dictionary of one file must hold, before encoding. */
  predicate FileAccepted(v: Value) {
    && v.Dict? && HasInt(v.entries, LENGTH) && HasList(v.entries, PATH)
    && forall j :: 0 <= j < |v.entries[PATH].items| ==> Utf8Text(v.entries[PATH].items[j])
  }

  /**
   * What an info dictionary must hold, before encoding: a UTF-8 name, piece hashes that are not UTF-8, an integer piece
   * length, and an integer length or else a list of files with integer lengths and UTF-8 path components.
   */
  predicate Accepted(m: map<Key, Value>) {
    && NAME in m && Utf8Text(m[NAME])
    && HasInt(m, PIECE_LENGTH)
    && PIECES in m && BinaryText(m[PIECES])
    && (HasInt(m, LENGTH)
        || (HasList(m, FILES) && forall i :: 0 <= i < |m[FILES].items| ==> FileAccepted(m[FILES].items[i])))
  }

  lemma NormKind(v: Value)
    ensures Norm(v).Str? <==> Utf8Text(v)
    ensures Norm(v).Raw? <==> BinaryText(v)
    ensures (Norm(v).Int? <==> v.Int?) && (Norm(v).List? <==> v.List?) && (Norm(v).Dict? <==> v.Dict?)
  {
    hide Utf8Valid;
  }

  lemma {:induction false} PathOk(items: seq<Value>, i: nat, j: nat, acc: seq<seq<byte>>)
    requires j <= |items|
    ensures PathFrom(items, i, j, acc).Ok? <==> forall k :: j <= k < |items| ==> items[k].Str?
    decreases |items| - j
  {
    if j < |items| && items[j].Str? {
      PathOk(items, i, j + 1, acc + [items[j].s]);
    }
  }

  lemma FileOk(v: Value, i: nat)
    ensures FileOf(v, i).Ok? <==>
              && v.Dict? && HasInt(v.entries, LENGTH) && HasList(v.entries, PATH)
              && forall k :: 0 <= k < |v.entries[PATH].items| ==> v.entries[PATH].items[k].Str?
  {
    hide PathFrom;
    if v.Dict? && HasList(v.entries, PATH) {
      PathOk(v.entries[PATH].items, i, 0, []);
    }
  }

  lemma {:induction false} FilesOk(items: seq<Value>, i: nat, acc: seq<FileInfo>)
    requires i <= |items|
    ensures FilesFrom(items, i, acc).Ok? <==> forall k :: i <= k < |items| ==> FileOf(items[k], k).Ok?
    decreases |items| - i
  {
    hide FileOf;
    if i < |items| && FileOf(items[i], i).Ok? {
      FilesOk(items, i + 1, acc + [FileOf(items[i], i).value]);
    }
  }

  lemma FileAfterDecoding(v: Value, i: nat)
    ensures FileOf(Norm(v), i).Ok? <==> FileAccepted(v)
  {
    hide Utf8Text, BinaryText, FileOf, TextOf, LENGTH, PATH;
    FileOk(Norm(v), i);
    NormKind(v);
    if v.Dict? {
      EntryKinds(v, LENGTH);
      EntryKinds(v, PATH);
      if HasList(v.entries, PATH) {
        ItemKinds(v.entries[PATH].items);
      }
    }
  }

  lemma EntryKinds(v: Value, k: Key)
    requires v.Dict?
    ensures var d := Norm(v).entries;
            && (k in d <==> k in v.entries)
            && (HasInt(d, k) <==> HasInt(v.entries, k)) && (HasList(d, k) <==> HasList(v.entries, k))
            && (HasList(d, k) ==> d[k].items == NormItems(v.entries[k].items))
            && (k in d && d[k].Str? <==> k in v.entries && Utf8Text(v.entries[k]))
            && (k in d && d[k].Raw? <==> k in v.entries && BinaryText(v.entries[k]))
  {
    hide Utf8Text, BinaryText;
    if k in v.entries {
      NormKind(v.entries[k]);
      assert Norm(v).entries[k] == Norm(v.entries[k]);
    }
  }

  lemma ItemKinds(items: seq<Value>)
    ensures forall j :: 0 <= j < |items| ==> (NormItems(items)[j].Str? <==> Utf8Text(items[j]))
  {
    hide Utf8Text, BinaryText, Norm, NormItems;
    forall j | 0 <= j < |items| ensures NormItems(items)[j].Str? <==> Utf8Text(items[j]) {
      NormItemAt(items, j);
      NormKind(items[j]);
    }
  }

  /**
   * Decoding the encoding of an info dictionary and handing the result to NewInfo succeeds exactly for the accepted
   * dictionaries, among those that are not nested too deeply to be decoded at all.
   */
  lemma NewInfoAfterDecode(m: map<Key, Value>)
    requires Supported(Dict(m)) && |Enc(Dict(m))| <= INT_MAX
    ensures var r := DecValue(Enc(Dict(m)), 0, 0);
            && (r.Ok? <==> Height(Dict(m)) <= MAX_DECODE_DEPTH)
            && (r.Ok? ==> r.value.Dict? && (InfoOf(r.value.entries).Ok? <==> Accepted(m)))
  {
    hide Supported, Enc, Height, DecValue;
    assert [] + Enc(Dict(m)) + [] == Enc(Dict(m));
    RoundTripInContext([], Dict(m), [], 0);
    InfoAfterNorm(m);
  }

  lemma InfoAfterNorm(m: map<Key, Value>)
    ensures InfoOf(Norm(Dict(m)).entries).Ok? <==> Accepted(m)
  {
    hide Norm, NormItems, Utf8Text, BinaryText, FileAccepted, FileOf, FilesFrom;
    hide LENGTH, NAME, PIECE_LENGTH, PIECES, FILES, PATH;
    var v := Dict(m);
    NormKind(v);
    EntryKinds(v, NAME);
    EntryKinds(v, PIECE_LENGTH);
    EntryKinds(v, PIECES);
    EntryKinds(v, LENGTH);
    EntryKinds(v, FILES);
    if HasList(m, FILES) {
      FilesAfterNorm(m[FILES].items);
    }
  }

  lemma FilesAfterNorm(items: seq<Value>)
    ensures FilesFrom(NormItems(items), 0, []).Ok? <==> forall i :: 0 <= i < |items| ==> FileAccepted(items[i])
  {
    hide Norm, NormItems, FileAccepted, FileOf, FilesFrom;
    FilesOk(NormItems(items), 0, []);
    forall i | 0 <= i < |items| ensures FileOf(NormItems(items)[i], i).Ok? <==> FileAccepted(items[i]) {
      NormItemAt(items, i);
      FileAfterDecoding(items[i], i);
    }
  }

  // ----- A torrent that is refused -----

  /** A hash of twenty bytes below 128. */
  function AsciiHash(): seq<byte> {
    seq(20, _ => 65)
  }

  function AsciiTorrent(): map<Key, Value> {
    map[NAME := Str([97]), PIECE_LENGTH := Int(16384), PIECES := Raw(AsciiHash()), LENGTH := Int(1)]
  }

  lemma KeysApart()
    ensures LENGTH != NAME && LENGTH != PIECE_LENGTH && LENGTH != PIECES && NAME != PIECE_LENGTH && NAME != PIECES
    ensures PIECE_LENGTH != PIECES
  {
    assert |LENGTH| == 6 && |NAME| == 4 && |PIECE_LENGTH| == 12 && |PIECES| == 6;
    assert LENGTH[0] != PIECES[0];
  }

  /** A single-file torrent with one piece, refused because its piece hash happens to be valid UTF-8. */
  lemma AsciiHashRefused()
    ensures !Accepted(AsciiTorrent())
    ensures InfoOf(Norm(Dict(AsciiTorrent())).entries) == Metainfo.Err(PiecesNotBytes)
  {
    hide LENGTH, NAME, PIECE_LENGTH, PIECES, FILES, PATH, Utf8Valid;
    KeysApart();
    AsciiIsUtf8(AsciiHash());
    AsciiIsUtf8([97]);
    var v := Dict(AsciiTorrent());
    EntryKinds(v, NAME);
    EntryKinds(v, PIECE_LENGTH);
    EntryKinds(v, PIECES);
  }
}
