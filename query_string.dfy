/** `AbstractCailunRestVerticle.splitQuery`: a raw URL query such as `a=1&b=x%20y` becomes an
    insertion-ordered map from decoded key to decoded value. */
module QueryString {
  import opened Sequences
  import opened JavaStrings
  import opened LinkedMaps

  datatype Option<+T> = None | Some(value: T)

  /** The exceptions that escape `splitQuery`. */
  datatype QueryError =
      /** A piece without `=`: `indexOf` gives -1 and `substring(0, -1)` throws. */
    | MissingEquals(piece: string)
      /** The URL decoder rejected this text (a malformed percent-escape). */
    | Undecodable(text: string)

  datatype Result<+T> = Ok(value: T) | Err(error: QueryError)

  /** `URLDecoder.decode(_, "UTF-8")`, left uninterpreted: `None` when it throws. */
  type Decoder = string -> Option<string>

  const PairSeparator: char := '&'
  const KeyValueSeparator: char := '='

  /** One `&`-separated piece: cut at its first `=`, decode the key, then the value. */
  function ParsePair(pair: string, decode: Decoder): (r: Result<(string, string)>)
    ensures KeyValueSeparator !in pair ==> r == Err(MissingEquals(pair))
    ensures r.Ok? ==> KeyValueSeparator in pair
  {
    var idx := IndexOf(pair, KeyValueSeparator);
    if idx < 0 then Err(MissingEquals(pair))
    else
      match decode(pair[..idx])
      case None => Err(Undecodable(pair[..idx]))
      case Some(key) =>
        match decode(pair[idx + 1..])
        case None => Err(Undecodable(pair[idx + 1..]))
        case Some(value) => Ok((key, value))
  }

  /** A piece is its key, the first `=`, and its value, which may hold further `=` characters. */
  lemma ParsePairCutsAtFirstEquals(key: string, value: string, decode: Decoder)
    requires KeyValueSeparator !in key
    ensures ParsePair(key + [KeyValueSeparator] + value, decode) ==
      match decode(key)
      case None => Err(Undecodable(key))
      case Some(k) =>
        match decode(value)
        case None => Err(Undecodable(value))
        case Some(v) => Ok((k, v))
  {
    var pair := key + [KeyValueSeparator] + value;
    assert pair[..|key|] == key;
    IndexOfAt(pair, KeyValueSeparator, |key|);
    assert pair[|key| + 1..] == value;
  }

  /** The pieces parsed in order; the first piece that fails decides the error. */
  function DecodePairs(pairs: seq<string>, decode: Decoder): (r: Result<seq<(string, string)>>)
    ensures r.Ok? <==> forall i :: 0 <= i < |pairs| ==> ParsePair(pairs[i], decode).Ok?
    ensures r.Ok? ==>
      && |r.value| == |pairs|
      && forall i :: 0 <= i < |pairs| ==> ParsePair(pairs[i], decode) == Ok(r.value[i])
  {
    if pairs == [] then Ok([])
    else
      match DecodePairs(pairs[..|pairs| - 1], decode)
      case Err(e) => Err(e)
      case Ok(ps) =>
        match ParsePair(pairs[|pairs| - 1], decode)
        case Err(e) => Err(e)
        case Ok(kv) => Ok(ps + [kv])
  }

  /** Once a prefix of the pieces fails, nothing after it is looked at. */
  lemma {:induction false} DecodePairsStopsAtError(pairs: seq<string>, n: nat, decode: Decoder)
    requires n <= |pairs|
    requires DecodePairs(pairs[..n], decode).Err?
    ensures DecodePairs(pairs, decode) == DecodePairs(pairs[..n], decode)
    decreases |pairs| - n
  {
    if n < |pairs| {
      assert pairs[..n + 1][..n] == pairs[..n];
      DecodePairsStopsAtError(pairs, n + 1, decode);
    } else {
      assert pairs[..n] == pairs;
    }
  }

  /** One more piece: its pair is appended, or its error is the result. */
  lemma DecodePairsStep(pairs: seq<string>, n: nat, decode: Decoder)
    requires n < |pairs| && DecodePairs(pairs[..n], decode).Ok?
    ensures DecodePairs(pairs[..n + 1], decode) ==
      match ParsePair(pairs[n], decode)
      case Err(e) => Err(e)
      case Ok(kv) => Ok(DecodePairs(pairs[..n], decode).value + [kv])
  {
    assert pairs[..n + 1][..n] == pairs[..n];
  }

  /** The error reported is that of the first piece that fails. */
  lemma {:induction false} DecodePairsFirstFailure(pairs: seq<string>, decode: Decoder) returns (i: nat)
    requires DecodePairs(pairs, decode).Err?
    ensures i < |pairs| && ParsePair(pairs[i], decode) == Err(DecodePairs(pairs, decode).error)
    ensures forall j :: 0 <= j < i ==> ParsePair(pairs[j], decode).Ok?
  {
    var init := pairs[..|pairs| - 1];
    if DecodePairs(init, decode).Err? {
      i := DecodePairsFirstFailure(init, decode);
    } else {
      i := |pairs| - 1;
    }
  }

  /** The result of `splitQuery(query)`: no query gives an empty map; otherwise the query is split
      at `&` and every piece is put, in order, into an empty `LinkedHashMap`. */
  function ParseQuery(query: Option<string>, decode: Decoder): (r: Result<LinkedMap<string, string>>)
    ensures r.Ok? ==> Valid(r.value)
    ensures query.Some? ==>
      (r.Ok? <==> forall i :: 0 <= i < |Split(query.value, PairSeparator)| ==>
        ParsePair(Split(query.value, PairSeparator)[i], decode).Ok?)
  {
    match query
    case None => Ok(Empty())
    case Some(q) =>
      match DecodePairs(Split(q, PairSeparator), decode)
      case Err(e) => Err(e)
      case Ok(ps) => Ok(FromPairs(ps))
  }

  /** The `for` loop of `splitQuery`: puts the pieces' pairs, in order, into a new map, and stops
      at the first piece that throws. */
  method PutPieces(pairs: seq<string>, decode: Decoder) returns (r: Result<LinkedMap<string, string>>)
    ensures r.Ok? <==> DecodePairs(pairs, decode).Ok?
    ensures r.Err? ==> r == Err(DecodePairs(pairs, decode).error)
    ensures r.Ok? ==> r.value == FromPairs(DecodePairs(pairs, decode).value)
  {
    var keys: seq<string> := [];
    var values: map<string, string> := map[];
    for n := 0 to |pairs|
      invariant DecodePairs(pairs[..n], decode).Ok?
      invariant LinkedMap(keys, values) == FromPairs(DecodePairs(pairs[..n], decode).value)
    {
      ghost var ps := DecodePairs(pairs[..n], decode).value;
      DecodePairsStep(pairs, n, decode);
      var pair := pairs[n];
      var idx := IndexOf(pair, KeyValueSeparator);
      if idx < 0 {
        DecodePairsStopsAtError(pairs, n + 1, decode);
        return Err(MissingEquals(pair));
      }
      var key := decode(pair[..idx]);
      if key.None? {
        DecodePairsStopsAtError(pairs, n + 1, decode);
        return Err(Undecodable(pair[..idx]));
      }
      var value := decode(pair[idx + 1..]);
      if value.None? {
        DecodePairsStopsAtError(pairs, n + 1, decode);
        return Err(Undecodable(pair[idx + 1..]));
      }
      ghost var kv := (key.value, value.value);
      assert DecodePairs(pairs[..n + 1], decode) == Ok(ps + [kv]);
      FromPairsSnoc(ps, kv);
      if key.value !in values {
        keys := keys + [key.value];
      }
      values := values[key.value := value.value];
    }
    assert pairs[..|pairs|] == pairs;
    return Ok(LinkedMap(keys, values));
  }

  /** `splitQuery`: no query gives a new empty map; otherwise the pieces of `query.split("&")` are
      put into the map by the loop. */
  method SplitQuery(query: Option<string>, decode: Decoder) returns (r: Result<LinkedMap<string, string>>)
    ensures r == ParseQuery(query, decode)
    ensures query.None? ==> r == Ok(LinkedMap([], map[]))
    ensures r.Ok? ==> Valid(r.value)
  {
    if query.None? {
      return Ok(LinkedMap([], map[]));
    }
    var pairs := Split(query.value, PairSeparator);
    r := PutPieces(pairs, decode);
  }

  /** On success the entries come from the pieces: `ps[i]` is the decoded pair of the `i`-th
      piece; keys are listed in the order of their first occurrence; a key repeated holds the value
      of its last occurrence; there is one entry per distinct key, so at most one per piece. */
  lemma QueryEntries(q: string, decode: Decoder) returns (ps: seq<(string, string)>)
    requires ParseQuery(Some(q), decode).Ok?
    ensures var pieces := Split(q, PairSeparator);
      |ps| == |pieces| && forall i :: 0 <= i < |pieces| ==> ParsePair(pieces[i], decode) == Ok(ps[i])
    ensures var m := ParseQuery(Some(q), decode).value;
      && m.values.Keys == Elements(KeysOf(ps))
      && InFirstOccurrenceOrder(m.keys, KeysOf(ps))
      && (forall i :: 0 <= i < |ps| && (forall j :: i < j < |ps| ==> ps[j].0 != ps[i].0) ==>
            m.values[ps[i].0] == ps[i].1)
      && |m.keys| == |m.values| == |Elements(KeysOf(ps))| <= |Split(q, PairSeparator)|
  {
    ps := DecodePairs(Split(q, PairSeparator), decode).value;
    FromPairsOrder(ps);
    FromPairsSize(ps);
    forall i | 0 <= i < |ps| && (forall j :: i < j < |ps| ==> ps[j].0 != ps[i].0)
      ensures ps[i].0 in FromPairs(ps).values && FromPairs(ps).values[ps[i].0] == ps[i].1
    {
      FromPairsLastWins(ps, i);
    }
  }

  /** A failed query reports the error of its first failing piece. */
  lemma QueryFailsAtFirstBadPiece(q: string, decode: Decoder) returns (i: nat)
    requires ParseQuery(Some(q), decode).Err?
    ensures var pieces := Split(q, PairSeparator);
      && i < |pieces|
      && ParsePair(pieces[i], decode) == Err(ParseQuery(Some(q), decode).error)
      && forall j :: 0 <= j < i ==> ParsePair(pieces[j], decode).Ok?
  {
    i := DecodePairsFirstFailure(Split(q, PairSeparator), decode);
  }

  /** The empty query is one empty piece, which has no `=`. */
  lemma EmptyQueryFails(decode: Decoder)
    ensures ParseQuery(Some([]), decode) == Err(MissingEquals([]))
  {
  }

  /** A query of nothing but `&` (at least one) splits into no pieces and gives an empty map. */
  lemma SeparatorsOnlyQueryIsEmpty(q: string, decode: Decoder)
    requires q != [] && forall i :: 0 <= i < |q| ==> q[i] == PairSeparator
    ensures ParseQuery(Some(q), decode) == Ok(Empty())
  {
    SplitShape(q, PairSeparator);
  }

  /** A leading `&` makes an empty first piece, which fails before anything else is looked at. */
  lemma LeadingSeparatorFails(q: string, decode: Decoder)
    requires exists i :: 0 <= i < |q| && q[i] != PairSeparator
    ensures ParseQuery(Some([PairSeparator] + q), decode) == Err(MissingEquals([]))
  {
    var pieces := Split([PairSeparator] + q, PairSeparator);
    var first: seq<string> := [[]];
    assert pieces[..1] == first by {
      SplitKeepsLeftPieces([], q, PairSeparator);
      assert [] + [PairSeparator] + q == [PairSeparator] + q;
    }
    assert DecodePairs(first, decode) == Err(MissingEquals([])) by {
      assert first[..0] == [];
    }
    DecodePairsStopsAtError(pieces, 1, decode);
  }

  /** Two `&` in a row make an empty piece, so the query fails, unless only `&` follow them. */
  lemma DoubledSeparatorFails(a: string, b: string, decode: Decoder)
    requires exists i :: 0 <= i < |b| && b[i] != PairSeparator
    ensures ParseQuery(Some(a + [PairSeparator, PairSeparator] + b), decode).Err?
  {
    var q := a + [PairSeparator, PairSeparator] + b;
    SplitKeepsEmptyPiece(a, b, PairSeparator);
    assert Split(q, PairSeparator)[|SplitAll(a, PairSeparator)|] == [];
    PieceWithoutEqualsFails(q, |SplitAll(a, PairSeparator)|, decode);
  }

  /** A piece without `=` anywhere in the query makes the whole query fail. */
  lemma PieceWithoutEqualsFails(q: string, i: nat, decode: Decoder)
    requires i < |Split(q, PairSeparator)| && KeyValueSeparator !in Split(q, PairSeparator)[i]
    ensures ParseQuery(Some(q), decode).Err?
  {
  }

  /** A trailing `&` is dropped by `split`: `a=1&` parses as `a=1`. Only the empty query differs
      (`""` fails, `"&"` gives an empty map). */
  lemma TrailingSeparatorIgnored(q: string, decode: Decoder)
    requires q != []
    ensures ParseQuery(Some(q + [PairSeparator]), decode) == ParseQuery(Some(q), decode)
  {
    SplitIgnoresTrailingSeparator(q, PairSeparator);
  }

  /** A piece starting with `=` has the decoding of the empty string as its key, whatever the
      decoder; `URLDecoder` decodes `""` to `""`, so the key is then the empty string. */
  lemma LeadingEqualsGivesEmptyKey(value: string, decode: Decoder)
    ensures var r := ParsePair([KeyValueSeparator] + value, decode);
      && (r.Ok? <==> decode([]).Some? && decode(value).Some?)
      && (r.Ok? ==> r.value == (decode([]).value, decode(value).value))
      && (decode([]) == Some([]) && decode(value).Some? ==> r == Ok(([], decode(value).value)))
  {
    ParsePairCutsAtFirstEquals([], value, decode);
    assert [] + [KeyValueSeparator] + value == [KeyValueSeparator] + value;
  }

  /** A query with no `&` is a single piece: one entry, its value everything after the first `=`. */
  lemma SinglePairQuery(key: string, value: string, decode: Decoder)
    requires PairSeparator !in key && PairSeparator !in value && KeyValueSeparator !in key
    requires decode(key).Some? && decode(value).Some?
    ensures var k, v := decode(key).value, decode(value).value;
      ParseQuery(Some(key + [KeyValueSeparator] + value), decode) == Ok(LinkedMap([k], map[k := v]))
  {
    var q := key + [KeyValueSeparator] + value;
    assert PairSeparator !in q;
    ParsePairCutsAtFirstEquals(key, value, decode);
    assert Split(q, PairSeparator) == [q];
    assert [q][..0] == [];
    var kv := (decode(key).value, decode(value).value);
    assert ParsePair(q, decode) == Ok(kv);
    var none: seq<(string, string)> := [];
    assert DecodePairs([q][..0], decode) == Ok(none);
    assert DecodePairs([q], decode) == Ok(none + [kv]);
    assert none + [kv] == [kv];
    assert [kv][..0] == none;
    assert FromPairs([kv]) == Put(Empty(), kv.0, kv.1);
    assert Empty<string, string>().keys + [kv.0] == [kv.0];
    assert Put(Empty(), kv.0, kv.1) == LinkedMap([kv.0], map[kv.0 := kv.1]);
  }
}
