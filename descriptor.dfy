/**
 * The layout-descriptor parser: `NewSdifTag` and `parseSdifTagInt` turn a
 * field's `sdif` metadata such as `start=12,len=30,code=004` into the
 * field's 1-indexed start column, its width and its code-table id.
 */
module Descriptor {
  import opened Wrappers
  import opened Bytes
  import opened Decimal
  import opened Errors

  /** A field layout: 1-indexed start column, width in bytes, code-table id (never used when encoding). */
  datatype SdifTag = SdifTag(start: int, len: int, code: Bytes)

  type KeyValue = (Bytes, Bytes)

  /** A piece of the metadata is a pair when it splits into exactly two parts on `=`. */
  predicate IsPair(piece: Bytes)
  {
    |Split(piece, '=')| == 2
  }

  /** Key and value of a pair piece (empty parts for a piece that is not a pair). */
  function PairOf(piece: Bytes): KeyValue
  {
    var kv := Split(piece, '=');
    if |kv| == 2 then (kv[0], kv[1]) else ([], [])
  }

  /**
   * The `for` loop of `NewSdifTag` over the pieces, as a function: the
   * pairs in order, or the first piece that is not a pair.
   */
  function KeyValues(pieces: seq<Bytes>): Result<seq<KeyValue>, Error>
  {
    if pieces == [] then Ok([])
    else
      match KeyValues(pieces[..|pieces| - 1])
      case Err(e) => Err(e)
      case Ok(kvs) =>
        var last := pieces[|pieces| - 1];
        if !IsPair(last) then Err(BadPair(last)) else Ok(kvs + [PairOf(last)])
  }

  /** `kvs[key]` after inserting the pairs in order into a map: the last pair with that key. */
  function Lookup(kvs: seq<KeyValue>, key: Bytes): Option<Bytes>
  {
    if kvs == [] then None
    else if kvs[|kvs| - 1].0 == key then Some(kvs[|kvs| - 1].1)
    else Lookup(kvs[..|kvs| - 1], key)
  }

  /** `parseSdifTagInt`, given the map lookup `kvs[key]`: absent reads as 0, present must pass Atoi. */
  function ParseTagInt(value: Option<Bytes>, key: Bytes): Result<int, Error>
  {
    match value
    case None => Ok(0)
    case Some(text) =>
      match Atoi(text)
      case None => Err(BadInt(key, text))
      case Some(n) => Ok(n)
  }

  /** What `NewSdifTag(s)` returns. */
  function ParseSdifTag(s: Bytes): Result<SdifTag, Error>
  {
    if s == [] then Err(EmptyDescriptor)
    else
      match KeyValues(Split(s, ','))
      case Err(e) => Err(e)
      case Ok(kvs) =>
        match ParseTagInt(Lookup(kvs, "start"), "start")
        case Err(e) => Err(e)
        case Ok(start) =>
          match ParseTagInt(Lookup(kvs, "len"), "len")
          case Err(e) => Err(e)
          case Ok(len) => Ok(SdifTag(start, len, GetOr(Lookup(kvs, "code"), [])))
  }

  function MapGet(m: map<Bytes, Bytes>, key: Bytes): Option<Bytes>
  {
    if key in m then Some(m[key]) else None
  }

  /** `NewSdifTag`: split on `,`, insert each `key=value` piece into a map, then read `start`, `len`, `code`. */
  method NewSdifTag(s: Bytes) returns (r: Result<SdifTag, Error>)
    ensures r == ParseSdifTag(s)
  {
    if s == [] {
      return Err(EmptyDescriptor);
    }
    var kvs: map<Bytes, Bytes> := map[];
    ghost var pairs: seq<KeyValue> := [];
    var pieces := Split(s, ',');
    for i := 0 to |pieces|
      invariant KeyValues(pieces[..i]) == Ok(pairs)
      invariant forall k :: Lookup(pairs, k) == MapGet(kvs, k)
    {
      var kvPair := Split(pieces[i], '=');
      assert pieces[..i + 1][..i] == pieces[..i];
      if |kvPair| != 2 {
        KeyValuesKeepsError(pieces, i + 1);
        return Err(BadPair(pieces[i]));
      }
      kvs := kvs[kvPair[0] := kvPair[1]];
      ghost var before := pairs;
      pairs := pairs + [(kvPair[0], kvPair[1])];
      assert pairs[..|pairs| - 1] == before;
    }
    assert pieces[..|pieces|] == pieces;
    var start := ParseTagInt(MapGet(kvs, "start"), "start");
    if start.Err? {
      return Err(start.error);
    }
    var l := ParseTagInt(MapGet(kvs, "len"), "len");
    if l.Err? {
      return Err(l.error);
    }
    r := Ok(SdifTag(start.value, l.value, GetOr(MapGet(kvs, "code"), [])));
  }

  /** Once a prefix of the pieces holds a bad piece, the whole list reports that piece. */
  lemma {:induction false} KeyValuesKeepsError(pieces: seq<Bytes>, j: nat)
    requires j <= |pieces| && KeyValues(pieces[..j]).Err?
    ensures KeyValues(pieces) == KeyValues(pieces[..j])
    decreases |pieces| - j
  {
    if j < |pieces| {
      assert pieces[..j + 1][..j] == pieces[..j];
      KeyValuesKeepsError(pieces, j + 1);
    } else {
      assert pieces[..j] == pieces;
    }
  }

  /** The pieces are all pairs exactly when the loop gets through them; it then holds their pairs in order. */
  lemma {:induction false} KeyValuesOk(pieces: seq<Bytes>)
    ensures KeyValues(pieces).Ok? <==> forall i :: 0 <= i < |pieces| ==> IsPair(pieces[i])
    ensures KeyValues(pieces).Ok? ==>
      |KeyValues(pieces).value| == |pieces| &&
      forall i :: 0 <= i < |pieces| ==> KeyValues(pieces).value[i] == PairOf(pieces[i])
  {
    if pieces != [] {
      var init := pieces[..|pieces| - 1];
      KeyValuesOk(init);
      assert forall i :: 0 <= i < |init| ==> init[i] == pieces[i];
    }
  }

  /** The loop stops at the first piece that is not a pair and reports that piece. */
  lemma {:induction false} KeyValuesFirstBad(pieces: seq<Bytes>, j: nat)
    requires j < |pieces| && !IsPair(pieces[j])
    requires forall i :: 0 <= i < j ==> IsPair(pieces[i])
    ensures KeyValues(pieces) == Err(BadPair(pieces[j]))
  {
    var prefix := pieces[..j + 1];
    KeyValuesOk(prefix[..j]);
    assert forall i :: 0 <= i < j ==> prefix[..j][i] == pieces[i];
    KeyValuesKeepsError(pieces, j + 1);
  }

  /** A lookup finds the value of the last pair with that key, and nothing when no pair has it. */
  lemma {:induction false} LookupLast(kvs: seq<KeyValue>, key: Bytes)
    ensures Lookup(kvs, key).None? <==> forall i :: 0 <= i < |kvs| ==> kvs[i].0 != key
    ensures Lookup(kvs, key).Some? ==>
      exists i :: 0 <= i < |kvs| && kvs[i] == (key, Lookup(kvs, key).value) &&
        forall j :: i < j < |kvs| ==> kvs[j].0 != key
  {
    if kvs != [] {
      var n := |kvs| - 1;
      var init := kvs[..n];
      LookupLast(init, key);
      assert forall i :: 0 <= i < |init| ==> init[i] == kvs[i];
      if kvs[n].0 == key {
        assert kvs[n] == (key, Lookup(kvs, key).value);
      } else {
        assert Lookup(kvs, key) == Lookup(init, key);
        if Lookup(init, key).Some? {
          var i :| 0 <= i < |init| && init[i] == (key, Lookup(init, key).value) &&
            forall j :: i < j < |init| ==> init[j].0 != key;
          assert kvs[i] == (key, Lookup(kvs, key).value);
          assert forall j :: i < j < |kvs| ==> kvs[j].0 != key;
        }
      }
    }
  }

  /** Every comma-separated piece of `s` is a pair. */
  predicate AllPairs(s: Bytes)
  {
    forall p :: p in Split(s, ',') ==> IsPair(p)
  }

  /** `start` or `len` is either absent or a value Atoi accepts. */
  predicate Readable(kvs: seq<KeyValue>, key: Bytes)
  {
    Lookup(kvs, key).None? || Atoi(Lookup(kvs, key).value).Some?
  }

  /** The pairs of the comma-separated pieces of `s`, whether or not every piece is a pair. */
  function PairsOf(s: Bytes): (kvs: seq<KeyValue>)
    ensures |kvs| == |Split(s, ',')|
  {
    var pieces := Split(s, ',');
    seq(|pieces|, i requires 0 <= i < |pieces| => PairOf(pieces[i]))
  }

  /**
   * `NewSdifTag` succeeds exactly when the string is not empty, every
   * comma-separated piece splits into two parts on `=`, and `start` and
   * `len` are each absent or integers; it then returns the integers (0 when
   * absent) and the code (empty when absent), each from the key's last pair.
   */
  lemma ParseSdifTagAccepts(s: Bytes)
    ensures ParseSdifTag(s).Ok? <==>
      s != [] && AllPairs(s) && Readable(PairsOf(s), "start") && Readable(PairsOf(s), "len")
    ensures ParseSdifTag(s).Ok? ==>
      var t := ParseSdifTag(s).value;
      var kvs := PairsOf(s);
      (Lookup(kvs, "start").None? ==> t.start == 0) &&
      (Lookup(kvs, "start").Some? ==> Atoi(Lookup(kvs, "start").value) == Some(t.start)) &&
      (Lookup(kvs, "len").None? ==> t.len == 0) &&
      (Lookup(kvs, "len").Some? ==> Atoi(Lookup(kvs, "len").value) == Some(t.len)) &&
      t.code == GetOr(Lookup(kvs, "code"), [])
  {
    var pieces := Split(s, ',');
    KeyValuesOk(pieces);
    if KeyValues(pieces).Ok? {
      assert KeyValues(pieces).value == PairsOf(s);
    } else if s != [] {
      var j :| 0 <= j < |pieces| && !IsPair(pieces[j]);
      assert pieces[j] in pieces;
    }
  }

  /**
   * `NewSdifTag` fails on the empty string, on a piece that is not a pair
   * (reporting the first such piece), and on a `start` or `len` that is
   * present but not an integer.
   */
  lemma ParseSdifTagRejects(s: Bytes, j: nat)
    ensures s == [] ==> ParseSdifTag(s) == Err(EmptyDescriptor)
    ensures (s != [] && j < |Split(s, ',')| && !IsPair(Split(s, ',')[j]) &&
             forall i :: 0 <= i < j ==> IsPair(Split(s, ',')[i])) ==>
      ParseSdifTag(s) == Err(BadPair(Split(s, ',')[j]))
    ensures (s != [] && AllPairs(s) && !Readable(PairsOf(s), "start")) ==>
      ParseSdifTag(s) == Err(BadInt("start", Lookup(PairsOf(s), "start").value))
    ensures (s != [] && AllPairs(s) && Readable(PairsOf(s), "start") && !Readable(PairsOf(s), "len")) ==>
      ParseSdifTag(s) == Err(BadInt("len", Lookup(PairsOf(s), "len").value))
  {
    var pieces := Split(s, ',');
    if s != [] && j < |pieces| && !IsPair(pieces[j]) && (forall i :: 0 <= i < j ==> IsPair(pieces[i])) {
      KeyValuesFirstBad(pieces, j);
    }
    KeyValuesOk(pieces);
    if s != [] && (forall p :: p in pieces ==> IsPair(p)) {
      assert forall i :: 0 <= i < |pieces| ==> pieces[i] in pieces;
      assert KeyValues(pieces).value == PairsOf(s);
    }
  }

  /** The piece `key=value`. */
  function Piece(key: Bytes, value: Bytes): Bytes
  {
    key + ['='] + value
  }

  /** The pieces of a layout string: `start=S`, `len=L` and, when there is a code, `code=C`. */
  function MetaPieces(start: nat, len: nat, code: Bytes): seq<Bytes>
  {
    if code == [] then [Piece("start", FormatInt(start)), Piece("len", FormatInt(len))]
    else [Piece("start", FormatInt(start)), Piece("len", FormatInt(len)), Piece("code", code)]
  }

  /** The layout string `start=S,len=L[,code=C]` as records.go writes it. */
  function Meta(start: nat, len: nat, code: Bytes): Bytes
  {
    Join(MetaPieces(start, len, code), ',')
  }

  /** `key=value` with no other `=` is a pair of exactly that key and value. */
  lemma SplitPair(key: Bytes, value: Bytes)
    requires '=' !in key && '=' !in value
    ensures Split(key + ['='] + value, '=') == [key, value]
    ensures IsPair(key + ['='] + value) && PairOf(key + ['='] + value) == (key, value)
  {
    SplitAtFirst(key, '=', value);
    SplitFree(value, '=');
  }

  lemma DigitsHaveNoSeparators(s: Bytes)
    requires AllDigits(s)
    ensures ',' !in s && '=' !in s
  {
    forall i | 0 <= i < |s| ensures s[i] != ',' && s[i] != '=' {
      assert IsDigit(s[i]);
    }
  }

  /** The pairs of a layout string, in order. */
  function MetaPairs(start: nat, len: nat, code: Bytes): seq<KeyValue>
  {
    if code == [] then [("start", FormatInt(start)), ("len", FormatInt(len))]
    else [("start", FormatInt(start)), ("len", FormatInt(len)), ("code", code)]
  }

  /** `key=value`, both free of `,` and `=`, is a pair of that key and value with no comma. */
  lemma PieceIsPair(key: Bytes, value: Bytes)
    requires ',' !in key && '=' !in key && ',' !in value && '=' !in value
    ensures ',' !in Piece(key, value) && IsPair(Piece(key, value)) && PairOf(Piece(key, value)) == (key, value)
  {
    SplitPair(key, value);
  }

  /** Each piece of a layout string is a pair: `start`, `len` and (with a code) `code`. */
  lemma MetaPiecesArePairs(start: nat, len: nat, code: Bytes)
    requires ',' !in code && '=' !in code
    ensures var pieces := MetaPieces(start, len, code);
      |pieces| == |MetaPairs(start, len, code)| &&
      (forall i :: 0 <= i < |pieces| ==> ',' !in pieces[i] && IsPair(pieces[i])) &&
      (forall i :: 0 <= i < |pieces| ==> PairOf(pieces[i]) == MetaPairs(start, len, code)[i])
  {
    var a, b := FormatInt(start), FormatInt(len);
    FormatIntShape(start);
    FormatIntShape(len);
    DigitsHaveNoSeparators(a);
    DigitsHaveNoSeparators(b);
    var k1: Bytes, k2: Bytes, k3: Bytes := "start", "len", "code";
    assert ',' !in k1 && '=' !in k1 && ',' !in k2 && '=' !in k2 && ',' !in k3 && '=' !in k3;
    PieceIsPair(k1, a);
    PieceIsPair(k2, b);
    var pieces, pairs := MetaPieces(start, len, code), MetaPairs(start, len, code);
    assert pieces[0] == Piece(k1, a) && pieces[1] == Piece(k2, b);
    assert pairs[0] == (k1, a) && pairs[1] == (k2, b);
    if code != [] {
      PieceIsPair(k3, code);
      assert pieces[2] == Piece(k3, code) && pairs[2] == (k3, code);
    }
  }

  /** A layout string splits into its pieces, which the loop turns into its pairs. */
  lemma MetaKeyValues(start: nat, len: nat, code: Bytes)
    requires ',' !in code && '=' !in code
    ensures Split(Meta(start, len, code), ',') == MetaPieces(start, len, code)
    ensures KeyValues(MetaPieces(start, len, code)) == Ok(MetaPairs(start, len, code))
  {
    var pieces := MetaPieces(start, len, code);
    MetaPiecesArePairs(start, len, code);
    assert forall p :: p in pieces ==> ',' !in p;
    SplitJoin(pieces, ',');
    KeyValuesOk(pieces);
    assert KeyValues(pieces).value == MetaPairs(start, len, code);
  }

  /**
   * Parsing inverts rendering: the layout string of a non-negative start and
   * width and a code without `,` or `=` parses back to exactly that layout.
   */
  lemma RenderRoundTrip(start: Int64, len: Int64, code: Bytes)
    requires 0 <= start && 0 <= len && ',' !in code && '=' !in code
    ensures ParseSdifTag(Meta(start, len, code)) == Ok(SdifTag(start, len, code))
  {
    MetaKeyValues(start, len, code);
    var k1: Bytes, k2: Bytes, k3: Bytes := "start", "len", "code";
    var kvs := MetaPairs(start, len, code);
    if code == [] {
      assert kvs[..1] == [(k1, FormatInt(start))];
      var first: seq<KeyValue> := kvs[..1];
      assert first[..0] == [];
      assert Lookup(kvs, "code") == Lookup(first, "code") == Lookup(first[..0], "code") == None;
      assert Lookup(kvs, "start") == Lookup(first, "start");
    } else {
      var two := kvs[..2];
      assert two == [(k1, FormatInt(start)), (k2, FormatInt(len))];
      assert two[..1] == [(k1, FormatInt(start))];
      assert k3 != k1 && k3 != k2 && k2 != k1;
      assert Lookup(kvs, "start") == Lookup(two, "start") == Lookup(two[..1], "start");
      assert Lookup(kvs, "len") == Lookup(two, "len");
    }
    assert Lookup(kvs, "start") == Some(FormatInt(start));
    assert Lookup(kvs, "len") == Some(FormatInt(len));
    AtoiFormatInt(start);
    AtoiFormatInt(len);
  }

  /** A pair added at the end hides nothing under another key. */
  lemma LookupOther(kvs: seq<KeyValue>, key: Bytes, value: Bytes, other: Bytes)
    requires other != key
    ensures Lookup(kvs + [(key, value)], other) == Lookup(kvs, other)
  {
    assert (kvs + [(key, value)])[..|kvs|] == kvs;
  }

  /** Appending `,key=value` adds one pair at the end, or keeps the string's error. */
  lemma AppendPair(s: Bytes, key: Bytes, value: Bytes)
    requires ',' !in key && ',' !in value && '=' !in key && '=' !in value
    ensures Split(s + [','] + key + ['='] + value, ',') == Split(s, ',') + [key + ['='] + value]
    ensures KeyValues(Split(s + [','] + key + ['='] + value, ',')) ==
      match KeyValues(Split(s, ','))
      case Err(e) => Err(e)
      case Ok(kvs) => Ok(kvs + [(key, value)])
  {
    var piece := key + ['='] + value;
    assert s + [','] + key + ['='] + value == s + [','] + piece;
    SplitAppend(s, ',', piece);
    SplitPair(key, value);
    var pieces := Split(s, ',');
    assert (pieces + [piece])[..|pieces|] == pieces;
  }

  /** A pair with a key other than `start`, `len` and `code` changes nothing. */
  lemma IgnoresUnknownKey(s: Bytes, key: Bytes, value: Bytes)
    requires s != []
    requires ',' !in key && ',' !in value && '=' !in key && '=' !in value
    requires key != "start" && key != "len" && key != "code"
    ensures ParseSdifTag(s + [','] + key + ['='] + value) == ParseSdifTag(s)
  {
    AppendPair(s, key, value);
  }

  /** The loop over two lists of pieces: the first list's pairs, then the second's, or the first error. */
  lemma {:induction false} KeyValuesConcat(p: seq<Bytes>, r: seq<Bytes>)
    ensures KeyValues(p + r) ==
      match KeyValues(p)
      case Err(e) => Err(e)
      case Ok(a) =>
        match KeyValues(r)
        case Err(e) => Err(e)
        case Ok(b) => Ok(a + b)
    decreases |r|
  {
    if r == [] {
      assert p + r == p;
      assert KeyValues(r) == Ok([]);
      if KeyValues(p).Ok? {
        assert KeyValues(p).value + [] == KeyValues(p).value;
      }
    } else {
      var init := r[..|r| - 1];
      assert (p + r)[..|p + r| - 1] == p + init;
      assert (p + r)[|p + r| - 1] == r[|r| - 1];
      KeyValuesConcat(p, init);
      if KeyValues(p).Ok? && KeyValues(init).Ok? {
        var a, b := KeyValues(p).value, KeyValues(init).value;
        assert a + b + [PairOf(r[|r| - 1])] == a + (b + [PairOf(r[|r| - 1])]);
      }
    }
  }

  /** A pair in the middle of the list hides nothing under another key. */
  lemma {:induction false} LookupInsert(a: seq<KeyValue>, kv: KeyValue, b: seq<KeyValue>, key: Bytes)
    requires kv.0 != key
    ensures Lookup(a + [kv] + b, key) == Lookup(a + b, key)
    decreases |b|
  {
    if b == [] {
      assert a + [kv] + b == a + [kv];
      assert a + b == a;
      LookupOther(a, kv.0, kv.1, key);
    } else {
      var init := b[..|b| - 1];
      assert (a + [kv] + b)[..|a + [kv] + b| - 1] == a + [kv] + init;
      assert (a + b)[..|a + b| - 1] == a + init;
      LookupInsert(a, kv, init, key);
    }
  }

  /** A piece between two commas splits out on its own between the pieces around it. */
  lemma SplitAround(s1: Bytes, piece: Bytes, s2: Bytes)
    requires ',' !in piece
    ensures Split(s1 + [','] + piece + [','] + s2, ',') == Split(s1, ',') + [piece] + Split(s2, ',')
    ensures Split(s1 + [','] + s2, ',') == Split(s1, ',') + Split(s2, ',')
  {
    assert s1 + [','] + piece + [','] + s2 == s1 + [','] + (piece + [','] + s2);
    SplitConcat(s1, ',', piece + [','] + s2);
    SplitConcat(piece, ',', s2);
    SplitFree(piece, ',');
    SplitConcat(s1, ',', s2);
  }

  /** A pair piece inserted into a list of pieces adds its pair there and keeps any error. */
  lemma KeyValuesInsert(p1: seq<Bytes>, piece: Bytes, p2: seq<Bytes>)
    requires IsPair(piece)
    ensures KeyValues(p1 + p2).Err? ==> KeyValues(p1 + [piece] + p2) == KeyValues(p1 + p2)
    ensures KeyValues(p1 + p2).Ok? ==>
      KeyValues(p1).Ok? && KeyValues(p2).Ok? &&
      KeyValues(p1 + p2).value == KeyValues(p1).value + KeyValues(p2).value &&
      KeyValues(p1 + [piece] + p2) == Ok(KeyValues(p1).value + [PairOf(piece)] + KeyValues(p2).value)
  {
    assert p1 + [piece] + p2 == p1 + ([piece] + p2);
    KeyValuesConcat(p1, [piece] + p2);
    KeyValuesConcat([piece], p2);
    KeyValuesConcat(p1, p2);
    var one := [piece];
    assert one[..0] == [] && one[0] == piece;
    assert KeyValues(one[..0]) == Ok([]);
    var none: seq<KeyValue> := [];
    assert none + [PairOf(piece)] == [PairOf(piece)];
    assert KeyValues(one) == Ok([PairOf(piece)]);
    if KeyValues(p1).Ok? && KeyValues(p2).Ok? {
      var a, b := KeyValues(p1).value, KeyValues(p2).value;
      assert a + ([PairOf(piece)] + b) == a + [PairOf(piece)] + b;
    }
  }

  /** Two lists of pairs that agree on `start`, `len` and `code`. */
  predicate SameLayoutKeys(a: seq<KeyValue>, b: seq<KeyValue>)
  {
    Lookup(a, "start") == Lookup(b, "start") && Lookup(a, "len") == Lookup(b, "len") &&
    Lookup(a, "code") == Lookup(b, "code")
  }

  /** Two strings parse alike when their loops fail alike or give pairs that agree on the three keys. */
  lemma SameParse(s: Bytes, t: Bytes)
    requires s != [] && t != []
    requires KeyValues(Split(s, ',')).Err? ==> KeyValues(Split(t, ',')) == KeyValues(Split(s, ','))
    requires KeyValues(Split(s, ',')).Ok? ==>
      KeyValues(Split(t, ',')).Ok? && SameLayoutKeys(KeyValues(Split(s, ',')).value, KeyValues(Split(t, ',')).value)
    ensures ParseSdifTag(s) == ParseSdifTag(t)
  {
  }

  /** A pair under another key, inserted anywhere, leaves the three layout keys as they were. */
  lemma LayoutKeysInsert(a: seq<KeyValue>, kv: KeyValue, b: seq<KeyValue>)
    requires kv.0 != "start" && kv.0 != "len" && kv.0 != "code"
    ensures SameLayoutKeys(a + b, a + [kv] + b)
  {
    LookupInsert(a, kv, b, "start");
    LookupInsert(a, kv, b, "len");
    LookupInsert(a, kv, b, "code");
  }

  /** The loop over a string with a pair inserted between two commas: the same error, or pairs that agree on the layout keys. */
  lemma InsertedPairs(s1: Bytes, s2: Bytes, key: Bytes, value: Bytes)
    requires ',' !in key && ',' !in value && '=' !in key && '=' !in value
    requires key != "start" && key != "len" && key != "code"
    ensures var without, with := Split(s1 + [','] + s2, ','), Split(s1 + [','] + Piece(key, value) + [','] + s2, ',');
      (KeyValues(without).Err? ==> KeyValues(with) == KeyValues(without)) &&
      (KeyValues(without).Ok? ==> KeyValues(with).Ok? && SameLayoutKeys(KeyValues(without).value, KeyValues(with).value))
  {
    var piece := Piece(key, value);
    PieceIsPair(key, value);
    SplitAround(s1, piece, s2);
    var p1, p2 := Split(s1, ','), Split(s2, ',');
    KeyValuesInsert(p1, piece, p2);
    if KeyValues(p1 + p2).Ok? {
      LayoutKeysInsert(KeyValues(p1).value, (key, value), KeyValues(p2).value);
    }
  }

  /**
   * A pair under a key other than `start`, `len` and `code` changes nothing
   * wherever it stands between two other parts of the string.
   */
  lemma IgnoresUnknownPiece(s1: Bytes, s2: Bytes, key: Bytes, value: Bytes)
    requires ',' !in key && ',' !in value && '=' !in key && '=' !in value
    requires key != "start" && key != "len" && key != "code"
    ensures ParseSdifTag(s1 + [','] + Piece(key, value) + [','] + s2) == ParseSdifTag(s1 + [','] + s2)
  {
    InsertedPairs(s1, s2, key, value);
    SameParse(s1 + [','] + s2, s1 + [','] + Piece(key, value) + [','] + s2);
  }

  /**
   * The last `start` wins: appending `,start=N` sets the start column to N
   * whatever earlier `start` pairs held, malformed ones included, and leaves
   * the width and the code as they were.
   */
  lemma LastStartWins(s: Bytes, n: Int64)
    requires s != [] && AllPairs(s) && Readable(PairsOf(s), "len") && n >= 0
    ensures var r := ParseSdifTag(s + [','] + "start" + ['='] + FormatInt(n));
      r.Ok? && r.value.start == n &&
      r.value.len == (if Lookup(PairsOf(s), "len").None? then 0 else Atoi(Lookup(PairsOf(s), "len").value).value) &&
      r.value.code == GetOr(Lookup(PairsOf(s), "code"), [])
  {
    var start, len, code: Bytes := "start", "len", "code";
    assert |start| == 5 && |len| == 3 && |code| == 4;
    var text := FormatInt(n);
    FormatIntShape(n);
    DigitsHaveNoSeparators(text);
    AppendedPairs(s, start, text);
    LookupOther(PairsOf(s), start, text, len);
    LookupOther(PairsOf(s), start, text, code);
    AtoiFormatInt(n);
  }

  /** Appending `,key=value` to a string of pairs adds that pair after its pairs. */
  lemma AppendedPairs(s: Bytes, key: Bytes, value: Bytes)
    requires AllPairs(s)
    requires ',' !in key && ',' !in value && '=' !in key && '=' !in value
    ensures KeyValues(Split(s + [','] + key + ['='] + value, ',')) == Ok(PairsOf(s) + [(key, value)])
  {
    AppendPair(s, key, value);
    var pieces := Split(s, ',');
    KeyValuesOk(pieces);
    assert forall i :: 0 <= i < |pieces| ==> pieces[i] in pieces;
    assert KeyValues(pieces).value == PairsOf(s);
  }

  /** `start=12,len=30` parses to start 12, width 30 and an empty code. */
  lemma ParsesWithoutCode(s: Bytes)
    requires s == "start=12,len=30"
    ensures ParseSdifTag(s) == Ok(SdifTag(12, 30, []))
  {
    assert NatText(12) == NatText(1) + [DigitOf(2)] == "12";
    assert NatText(30) == NatText(3) + [DigitOf(0)] == "30";
    var pieces := MetaPieces(12, 30, []);
    assert pieces == [Piece("start", "12"), Piece("len", "30")];
    assert pieces[1..] == [Piece("len", "30")];
    assert Meta(12, 30, []) == Piece("start", "12") + [','] + Piece("len", "30") == s;
    RenderRoundTrip(12, 30, []);
  }

  /** Two pieces `k1=v1,k2=v2` free of stray separators give exactly their two pairs. */
  lemma TwoPairs(k1: Bytes, v1: Bytes, k2: Bytes, v2: Bytes)
    requires ',' !in k1 && '=' !in k1 && ',' !in v1 && '=' !in v1
    requires ',' !in k2 && '=' !in k2 && ',' !in v2 && '=' !in v2
    ensures KeyValues(Split(Piece(k1, v1) + [','] + Piece(k2, v2), ',')) == Ok([(k1, v1), (k2, v2)])
  {
    var p1 := Piece(k1, v1);
    PieceIsPair(k1, v1);
    assert p1 + [','] + Piece(k2, v2) == p1 + [','] + k2 + ['='] + v2;
    AppendPair(p1, k2, v2);
    SplitFree(p1, ',');
    var one := [p1];
    assert one[..0] == [] && one[0] == p1;
    assert KeyValues(one[..0]) == Ok([]);
    var none: seq<KeyValue> := [];
    assert none + [PairOf(p1)] == [(k1, v1)];
    assert KeyValues(one) == Ok([(k1, v1)]);
    assert [(k1, v1)] + [(k2, v2)] == [(k1, v1), (k2, v2)];
  }

  /** `start=abc,len=5` is rejected: `abc` is not an integer. */
  lemma RejectsNonInteger(s: Bytes)
    requires s == "start=abc,len=5"
    ensures ParseSdifTag(s) == Err(BadInt("start", "abc"))
  {
    var k, l, v, five: Bytes := "start", "len", "abc", "5";
    assert s == Piece(k, v) + [','] + Piece(l, five);
    assert ',' !in k && '=' !in k && ',' !in v && '=' !in v;
    assert ',' !in l && '=' !in l && ',' !in five && '=' !in five;
    TwoPairs(k, v, l, five);
    var kvs: seq<KeyValue> := [(k, v), (l, five)];
    assert kvs[..1] == [(k, v)];
    assert Lookup(kvs, k) == Some(v);
    AtoiRejects(v, 0);
  }

  /** A piece without `=` is not a pair: `start=3,len` is rejected at `len`. */
  lemma RejectsPieceWithoutEquals(s: Bytes)
    requires s == "start=3,len"
    ensures ParseSdifTag(s) == Err(BadPair("len"))
  {
    var p1: Bytes := "start" + ['='] + "3";
    var p2: Bytes := "len";
    assert s == p1 + [','] + p2;
    SplitAtFirst(p1, ',', p2);
    SplitFree(p2, ',');
    SplitPair("start", "3");
    SplitFree(p2, '=');
    assert Split(s, ',') == [p1, p2];
    KeyValuesFirstBad([p1, p2], 1);
  }
}
