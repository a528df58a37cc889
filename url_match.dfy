/**
 * `CrimsonRanger.find_arrow_id_by_url` (src/dark-elves.ts:232-284): a first-match scan
 * over the routes in key order, which extracts path parameters from placeholder
 * routes and compares the other routes with the URL exactly.
 */
module UrlMatch {
  import opened Wrappers
  import opened Text
  import opened PathPattern
  import opened PathFill
  import Uri

  /** Keys that start and end with `%`, such as `%404%`, which the scan skips. */
  predicate IsReserved(id: string)
  {
    StartsWith(id, '%') && EndsWith(id, '%')
  }

  const NotFoundId := "%404%"

  lemma NotFoundIsReserved()
    ensures IsReserved(NotFoundId)
  {
  }

  // ---------------------------------------------------------------------------
  // Collecting parameters

  /** The values a parameter record holds for `name`, in order: none, one string, or the array's elements. */
  function ValuesOf(acc: ParamRecord, name: string): seq<string>
  {
    if acc == [] then []
    else if acc[0].0 == name then
      match acc[0].1
      case Str(s) => [s]
      case Arr(xs) => xs
    else ValuesOf(acc[1..], name)
  }

  /** The names of a record, in order. */
  function Names(acc: ParamRecord): (ns: seq<string>)
    ensures |ns| == |acc|
  {
    seq(|acc|, i requires 0 <= i < |acc| => acc[i].0)
  }

  /**
   * One extracted value added to `path_params` (src/dark-elves.ts:260-270): a new name
   * is appended with a string value, a second value turns the string into a two-element
   * array, and later values are pushed onto the array.
   */
  function AddParam(acc: ParamRecord, name: string, v: string): ParamRecord
  {
    if acc == [] then [(name, Str(v))]
    else if acc[0].0 == name then
      [(name, match acc[0].1
              case Str(prev) => Arr([prev, v])
              case Arr(xs) => Arr(xs + [v]))] + acc[1..]
    else [acc[0]] + AddParam(acc[1..], name, v)
  }

  /** Adding a value appends it to that name's values and leaves every other name's values alone. */
  lemma {:induction false} AddParamOwnValues(acc: ParamRecord, name: string, v: string)
    ensures ValuesOf(AddParam(acc, name, v), name) == ValuesOf(acc, name) + [v]
    ensures forall n :: n != name ==> ValuesOf(AddParam(acc, name, v), n) == ValuesOf(acc, n)
    decreases |acc|
  {
    if acc != [] && acc[0].0 != name {
      AddParamOwnValues(acc[1..], name, v);
      assert AddParam(acc, name, v)[1..] == AddParam(acc[1..], name, v);
    }
  }

  /** A new name goes to the end of the record; a known name keeps the names as they are. */
  lemma {:induction false} AddParamNames(acc: ParamRecord, name: string, v: string)
    ensures Names(AddParam(acc, name, v)) == if name in Names(acc) then Names(acc) else Names(acc) + [name]
    decreases |acc|
  {
    var r := AddParam(acc, name, v);
    if acc != [] {
      NamesCons(acc);
      NamesCons(r);
      if acc[0].0 == name {
        assert r[1..] == acc[1..];
      } else {
        AddParamNames(acc[1..], name, v);
        assert r[1..] == AddParam(acc[1..], name, v);
        assert name in Names(acc) <==> name in Names(acc[1..]);
      }
    }
  }

  lemma NamesCons(acc: ParamRecord)
    requires acc != []
    ensures Names(acc) == [acc[0].0] + Names(acc[1..])
  {
    assert forall i :: 0 < i < |acc| ==> acc[1..][i - 1] == acc[i];
  }

  /** Names stay distinct when a value is added. */
  lemma AddParamDistinct(acc: ParamRecord, name: string, v: string)
    requires DistinctNames(acc)
    ensures DistinctNames(AddParam(acc, name, v))
  {
    var r := AddParam(acc, name, v);
    AddParamNames(acc, name, v);
    var ns, ms := Names(acc), Names(r);
    forall i, j | 0 <= i < j < |r| ensures r[i].0 != r[j].0 {
      assert ms[i] == r[i].0 && ms[j] == r[j].0;
      if j < |acc| {
        assert ns[i] == acc[i].0 && ns[j] == acc[j].0;
      } else {
        assert ms[i] == ns[i];
      }
    }
  }

  /** Every array in the record holds at least two values, as the source only builds one from a second value. */
  predicate Promoted(acc: ParamRecord)
  {
    forall j :: 0 <= j < |acc| && acc[j].1.Arr? ==> |acc[j].1.items| >= 2
  }

  /** The value stored under `name`: that of its first entry, if any. */
  function ValueFor(acc: ParamRecord, name: string): Option<ParamValue>
  {
    if acc == [] then None
    else if acc[0].0 == name then Some(acc[0].1)
    else ValueFor(acc[1..], name)
  }

  /** The form a name's values take in `path_params`: absent, one string, or an array of several. */
  function FormOf(vs: seq<string>): Option<ParamValue>
  {
    if vs == [] then None
    else if |vs| == 1 then Some(Str(vs[0]))
    else Some(Arr(vs))
  }

  lemma PromotedTail(acc: ParamRecord)
    requires acc != [] && Promoted(acc)
    ensures Promoted(acc[1..])
  {
    assert forall j :: 0 <= j < |acc| - 1 ==> acc[1..][j] == acc[j + 1];
  }

  lemma PromotedCons(e: (string, ParamValue), rest: ParamRecord)
    requires Promoted(rest) && (e.1.Arr? ==> |e.1.items| >= 2)
    ensures Promoted([e] + rest)
  {
    assert forall j :: 0 < j < |rest| + 1 ==> ([e] + rest)[j] == rest[j - 1];
  }

  /** In a promoted record, the stored value is the form of the name's values. */
  lemma {:induction false} PromotedForm(acc: ParamRecord, name: string)
    requires Promoted(acc)
    ensures ValueFor(acc, name) == FormOf(ValuesOf(acc, name))
    decreases |acc|
  {
    if acc != [] {
      if acc[0].0 == name {
        assert acc[0].1.Arr? ==> |acc[0].1.items| >= 2;
      } else {
        PromotedTail(acc);
        PromotedForm(acc[1..], name);
      }
    }
  }

  /**
   * A first value is stored as a string, a second turns it into a two-element array, and
   * later ones are pushed; so records stay promoted.
   */
  lemma {:induction false} AddParamForm(acc: ParamRecord, name: string, v: string)
    requires Promoted(acc)
    ensures Promoted(AddParam(acc, name, v))
    ensures ValueFor(AddParam(acc, name, v), name)
         == Some(if ValuesOf(acc, name) == [] then Str(v) else Arr(ValuesOf(acc, name) + [v]))
    decreases |acc|
  {
    if acc != [] {
      PromotedTail(acc);
      if acc[0].0 == name {
        assert acc[0].1.Arr? ==> |acc[0].1.items| >= 2;
        if acc[0].1.Str? {
          assert [acc[0].1.s] + [v] == [acc[0].1.s, v];
        }
        assert AddParam(acc, name, v) == [AddParam(acc, name, v)[0]] + acc[1..];
        PromotedCons(AddParam(acc, name, v)[0], acc[1..]);
      } else {
        AddParamForm(acc[1..], name, v);
        PromotedCons(acc[0], AddParam(acc[1..], name, v));
      }
    }
  }

  /**
   * Adding a value appends it to that name's values and leaves every other name's values
   * alone; a new name goes to the end of the record, and names stay distinct. In a
   * promoted record the first value is stored as a string, the second makes a two-element
   * array and later ones extend it.
   */
  lemma AddParamValues(acc: ParamRecord, name: string, v: string)
    ensures ValuesOf(AddParam(acc, name, v), name) == ValuesOf(acc, name) + [v]
    ensures forall n :: n != name ==> ValuesOf(AddParam(acc, name, v), n) == ValuesOf(acc, n)
    ensures Names(AddParam(acc, name, v)) == if name in Names(acc) then Names(acc) else Names(acc) + [name]
    ensures DistinctNames(acc) ==> DistinctNames(AddParam(acc, name, v))
    ensures Promoted(acc) ==>
              && Promoted(AddParam(acc, name, v))
              && ValueFor(AddParam(acc, name, v), name)
                 == Some(if ValuesOf(acc, name) == [] then Str(v) else Arr(ValuesOf(acc, name) + [v]))
  {
    AddParamOwnValues(acc, name, v);
    AddParamNames(acc, name, v);
    if DistinctNames(acc) {
      AddParamDistinct(acc, name, v);
    }
    if Promoted(acc) {
      AddParamForm(acc, name, v);
    }
  }


  // ---------------------------------------------------------------------------
  // Matching one placeholder route

  /** The outcome of matching one route: no match, a `URIError` from decoding, or the extracted parameters. */
  datatype PieceMatch = NoMatch | Threw | Matched(params: ParamRecord)

  /**
   * The indexed loop over the route's `/`-pieces from index `i` (src/dark-elves.ts:241-271):
   * it stops with a match when either list of pieces runs out; a literal piece must equal
   * the WHOLE URL; a placeholder piece takes the decoded URL piece at the same index.
   */
  function MatchFrom(ap: seq<string>, up: seq<string>, url: string, i: nat, acc: ParamRecord): PieceMatch
    requires i <= |ap|
    decreases |ap| - i
  {
    if i == |ap| || i >= |up| then Matched(acc)
    else
      match FirstParam(ap[i])
      case None => if url == ap[i] then MatchFrom(ap, up, url, i + 1, acc) else NoMatch
      case Some(name) =>
        match Uri.DecodeURIComponent(up[i])
        case None => Threw
        case Some(v) => MatchFrom(ap, up, url, i + 1, AddParam(acc, name, v))
  }

  function MatchRoute(path: string, url: string): PieceMatch
  {
    MatchFrom(Split(path, '/'), Split(url, '/'), url, 0, [])
  }

  /**
   * A match throws only where a placeholder piece meets a URL piece that
   * `decodeURIComponent` rejects.
   */
  lemma {:induction false} ThrewOnBadEscape(ap: seq<string>, up: seq<string>, url: string, i: nat, acc: ParamRecord)
    requires i <= |ap| && MatchFrom(ap, up, url, i, acc) == Threw
    ensures exists j :: i <= j < |ap| && j < |up| && FirstParam(ap[j]).Some? && Uri.DecodeURIComponent(up[j]).None?
    decreases |ap| - i
  {
    match FirstParam(ap[i])
    case None =>
      ThrewOnBadEscape(ap, up, url, i + 1, acc);
    case Some(name) =>
      if Uri.DecodeURIComponent(up[i]).Some? {
        ThrewOnBadEscape(ap, up, url, i + 1, AddParam(acc, name, Uri.DecodeURIComponent(up[i]).value));
      }
  }

  /** The loop of the source, with its `correct_id` flag, proved to compute `MatchRoute`. */
  method MatchPieces(path: string, url: string) returns (m: PieceMatch)
    ensures m == MatchRoute(path, url)
  {
    var params: ParamRecord := [];
    var correct := true;
    var ap := Split(path, '/');
    var up := Split(url, '/');
    var i := 0;
    while i < |ap|
      invariant 0 <= i <= |ap|
      invariant correct
      invariant MatchFrom(ap, up, url, i, params) == MatchRoute(path, url)
    {
      if i >= |up| {
        break;
      }
      var found := FirstParam(ap[i]);
      if found.None? {
        if url == ap[i] {
          i := i + 1;
          continue;
        } else {
          correct := false;
          break;
        }
      }
      var name := found.value;
      var decoded := Uri.DecodeURIComponent(up[i]);
      if decoded.None? {
        return Threw;
      }
      params := AddParam(params, name, decoded.value);
      i := i + 1;
    }
    if !correct {
      return NoMatch;
    }
    return Matched(params);
  }

  /** The decoded URL pieces that a match files under `name`, in piece order. */
  function DecodedFor(ap: seq<string>, up: seq<string>, i: nat, name: string): seq<string>
    requires i <= |ap|
    decreases |ap| - i
  {
    if i == |ap| || i >= |up| then []
    else
      (if FirstParam(ap[i]) == Some(name) then [Uri.DecodeURIComponent(up[i]).GetOr("")] else [])
      + DecodedFor(ap, up, i + 1, name)
  }

  lemma DecodedForStep(ap: seq<string>, up: seq<string>, i: nat, name: string, p: string, v: string)
    requires i < |ap| && i < |up| && FirstParam(ap[i]) == Some(p) && Uri.DecodeURIComponent(up[i]) == Some(v)
    ensures DecodedFor(ap, up, i, name) == (if name == p then [v] else []) + DecodedFor(ap, up, i + 1, name)
  {
  }

  lemma PlaceholderStepAt(ap: seq<string>, up: seq<string>, i: nat, acc: ParamRecord, p: string, v: string, name: string)
    requires i < |ap| && i < |up| && FirstParam(ap[i]) == Some(p) && Uri.DecodeURIComponent(up[i]) == Some(v)
    ensures ValuesOf(AddParam(acc, p, v), name) + DecodedFor(ap, up, i + 1, name)
         == ValuesOf(acc, name) + DecodedFor(ap, up, i, name)
  {
    DecodedForStep(ap, up, i, name, p, v);
    AddParamOwnValues(acc, p, v);
    MovedValue(ValuesOf(acc, name), ValuesOf(AddParam(acc, p, v), name),
               DecodedFor(ap, up, i, name), DecodedFor(ap, up, i + 1, name), if name == p then [v] else []);
  }

  /** Moving the same values from the front of the pending ones to the end of the collected ones keeps their concatenation. */
  lemma MovedValue(a: seq<string>, a': seq<string>, d: seq<string>, d': seq<string>, x: seq<string>)
    requires a' == a + x && d == x + d'
    ensures a' + d' == a + d
  {
  }

  /** A placeholder piece adds its decoded value under its name and nowhere else. */
  lemma PlaceholderStep(ap: seq<string>, up: seq<string>, i: nat, acc: ParamRecord, p: string, v: string)
    requires i < |ap| && i < |up| && FirstParam(ap[i]) == Some(p) && Uri.DecodeURIComponent(up[i]) == Some(v)
    ensures forall name :: ValuesOf(AddParam(acc, p, v), name) + DecodedFor(ap, up, i + 1, name)
                        == ValuesOf(acc, name) + DecodedFor(ap, up, i, name)
  {
    forall name
      ensures ValuesOf(AddParam(acc, p, v), name) + DecodedFor(ap, up, i + 1, name)
        == ValuesOf(acc, name) + DecodedFor(ap, up, i, name)
    {
      PlaceholderStepAt(ap, up, i, acc, p, v, name);
    }
  }

  /**
   * A match collects, for every name, the decoded URL pieces at that name's placeholder
   * pieces in order (one value a string, several an array), and its names are distinct.
   */
  lemma {:induction false} MatchCollects(ap: seq<string>, up: seq<string>, url: string, i: nat, acc: ParamRecord)
    requires i <= |ap| && MatchFrom(ap, up, url, i, acc).Matched?
    ensures forall name ::
              ValuesOf(MatchFrom(ap, up, url, i, acc).params, name) == ValuesOf(acc, name) + DecodedFor(ap, up, i, name)
    ensures DistinctNames(acc) ==> DistinctNames(MatchFrom(ap, up, url, i, acc).params)
    ensures Promoted(acc) ==> Promoted(MatchFrom(ap, up, url, i, acc).params)
    decreases |ap| - i
  {
    if i == |ap| || i >= |up| {
      forall name ensures ValuesOf(acc, name) + DecodedFor(ap, up, i, name) == ValuesOf(acc, name) {
      }
    } else {
      match FirstParam(ap[i])
      case None =>
        MatchCollects(ap, up, url, i + 1, acc);
        forall name ensures DecodedFor(ap, up, i, name) == DecodedFor(ap, up, i + 1, name) {
          assert FirstParam(ap[i]) != Some(name);
        }
      case Some(p) =>
        var v := Uri.DecodeURIComponent(up[i]).value;
        MatchCollects(ap, up, url, i + 1, AddParam(acc, p, v));
        PlaceholderStep(ap, up, i, acc, p, v);
        AddParamValues(acc, p, v);
    }
  }

  /**
   * The parameters of a match (src/dark-elves.ts:260-269): each name holds the decoded URL
   * pieces at its placeholder pieces, in order, as a string when there is one and as an
   * array when there are several; the names are distinct.
   */
  lemma MatchRouteForms(path: string, url: string)
    requires MatchRoute(path, url).Matched?
    ensures forall name :: ValueFor(MatchRoute(path, url).params, name)
                           == FormOf(DecodedFor(Split(path, '/'), Split(url, '/'), 0, name))
    ensures DistinctNames(MatchRoute(path, url).params)
  {
    var ap, up := Split(path, '/'), Split(url, '/');
    MatchCollects(ap, up, url, 0, []);
    var ps := MatchRoute(path, url).params;
    forall name ensures ValueFor(ps, name) == FormOf(DecodedFor(ap, up, 0, name)) {
      PromotedForm(ps, name);
      assert ValuesOf([], name) + DecodedFor(ap, up, 0, name) == DecodedFor(ap, up, 0, name);
    }
  }


  /**
   * As written, a literal piece is compared with the whole URL, so a placeholder route
   * whose pattern starts with `/` (its first piece is empty) matches no URL but the
   * empty one, and that one with no parameters.
   */
  lemma LeadingSlashRoute(path: string, url: string)
    requires StartsWith(path, '/')
    ensures url != "" ==> MatchRoute(path, url) == NoMatch
    ensures url == "" ==> MatchRoute(path, url) == Matched([])
  {
    assert path == "" + ['/'] + path[1..];
    SplitAtSeparator("", '/', path[1..]);
    var ap := Split(path, '/');
    assert ap[0] == "";
    assert FirstParam("") == None;
    if url == "" {
      var up := Split(url, '/');
      assert up == [""];
      assert MatchFrom(ap, up, url, 1, []) == Matched([]);
    }
  }

  // ---------------------------------------------------------------------------
  // The scan over the routes

  /**
   * The scan from position `k` over `(id, stored pattern)` pairs in key order. `None`
   * stands for the `URIError` a malformed escape in the URL throws.
   */
  function FindFrom(table: seq<(string, string)>, base: string, url: string, k: nat): (r: Option<(string, ExtraParams)>)
    requires k <= |table|
    ensures r.Some? ==>
      || r.value == (NotFoundId, NoParams)
      || exists j :: k <= j < |table| && table[j].0 == r.value.0 && !IsReserved(table[j].0)
    ensures r.None? ==>
      exists j :: k <= j < |table| && !IsReserved(table[j].0) && HasParam(table[j].1) && MatchRoute(table[j].1, url) == Threw
    decreases |table| - k
  {
    if k == |table| then Some((NotFoundId, NoParams))
    else
      var (id, path) := table[k];
      if IsReserved(id) then FindFrom(table, base, url, k + 1)
      else if HasParam(path) then
        match MatchRoute(path, url)
        case Threw => None
        case NoMatch => FindFrom(table, base, url, k + 1)
        case Matched(ps) => Some((id, ExtraParams(Some(ps), Some([]))))
      else if base + path != url then FindFrom(table, base, url, k + 1)
      else Some((id, NoParams))
  }

  /** `find_arrow_id_by_url(url)` over the routes in key order. */
  function FindArrowIdByUrl(table: seq<(string, string)>, base: string, url: string): Option<(string, ExtraParams)>
  {
    FindFrom(table, base, url, 0)
  }

  /** No stored pattern holds a placeholder. */
  predicate PlainTable(table: seq<(string, string)>)
  {
    forall j :: 0 <= j < |table| ==> !HasParam(table[j].1)
  }

  /** Entry `j` is a route the scan may return for `url` by exact comparison. */
  predicate ExactAt(table: seq<(string, string)>, base: string, url: string, j: int)
  {
    0 <= j < |table| && !IsReserved(table[j].0) && base + table[j].1 == url
  }

  /**
   * Without placeholders the scan never throws, returns `{}` parameters, and answers the
   * first non-reserved entry whose base path plus pattern is the URL, or `%404%` when
   * there is none.
   */
  lemma {:induction false} FindPlainFrom(table: seq<(string, string)>, base: string, url: string, k: nat)
    requires PlainTable(table) && k <= |table|
    ensures FindFrom(table, base, url, k).Some?
    ensures FindFrom(table, base, url, k).value.1 == NoParams
    ensures FindFrom(table, base, url, k).value.0 == NotFoundId
      <==> forall j :: k <= j < |table| ==> !ExactAt(table, base, url, j)
    ensures FindFrom(table, base, url, k).value.0 != NotFoundId ==>
      exists j :: k <= j < |table| && ExactAt(table, base, url, j) && table[j].0 == FindFrom(table, base, url, k).value.0
        && forall i :: k <= i < j ==> !ExactAt(table, base, url, i)
    decreases |table| - k
  {
    NotFoundIsReserved();
    if k < |table| {
      if ExactAt(table, base, url, k) {
        assert table[k].0 != NotFoundId;
      } else {
        FindPlainFrom(table, base, url, k + 1);
        var r := FindFrom(table, base, url, k + 1);
        if r.value.0 != NotFoundId {
          var j :| k + 1 <= j < |table| && ExactAt(table, base, url, j) && table[j].0 == r.value.0
            && forall i :: k + 1 <= i < j ==> !ExactAt(table, base, url, i);
          assert forall i :: k <= i < j ==> !ExactAt(table, base, url, i);
        }
      }
    }
  }

  /** Every placeholder pattern starts with `/`, as the route type demands. */
  predicate SlashLed(table: seq<(string, string)>)
  {
    forall j :: 0 <= j < |table| && HasParam(table[j].1) ==> StartsWith(table[j].1, '/')
  }

  /** Entry `j` is a route without placeholders whose base path plus pattern is the URL. */
  predicate PlainHit(table: seq<(string, string)>, base: string, url: string, j: int)
  {
    ExactAt(table, base, url, j) && !HasParam(table[j].1)
  }

  /**
   * With `/`-led placeholder patterns, and a non-empty URL unless the table has no
   * placeholders at all, the scan never throws, returns `{}` parameters, and answers the
   * first non-reserved route without placeholders whose base path plus pattern is the URL,
   * or `%404%` when there is none.
   */
  lemma {:induction false} FindMixedFrom(table: seq<(string, string)>, base: string, url: string, k: nat)
    requires k <= |table| && SlashLed(table) && (url != "" || PlainTable(table))
    ensures FindFrom(table, base, url, k).Some?
    ensures FindFrom(table, base, url, k).value.1 == NoParams
    ensures FindFrom(table, base, url, k).value.0 == NotFoundId
      <==> forall j :: k <= j < |table| ==> !PlainHit(table, base, url, j)
    ensures FindFrom(table, base, url, k).value.0 != NotFoundId ==>
      exists j :: k <= j < |table| && PlainHit(table, base, url, j) && table[j].0 == FindFrom(table, base, url, k).value.0
        && forall i :: k <= i < j ==> !PlainHit(table, base, url, i)
    decreases |table| - k
  {
    NotFoundIsReserved();
    if k < |table| {
      MixedStep(table, base, url, k);
      if PlainHit(table, base, url, k) {
        assert table[k].0 != NotFoundId;
      } else {
        FindMixedFrom(table, base, url, k + 1);
        var r := FindFrom(table, base, url, k + 1);
        if r.value.0 != NotFoundId {
          var j :| k + 1 <= j < |table| && PlainHit(table, base, url, j) && table[j].0 == r.value.0
            && forall i :: k + 1 <= i < j ==> !PlainHit(table, base, url, i);
          assert forall i :: k <= i < j ==> !PlainHit(table, base, url, i);
        }
      }
    }
  }

  /** One position of the scan: a route without placeholders that hits is answered, anything else is passed over. */
  lemma MixedStep(table: seq<(string, string)>, base: string, url: string, k: nat)
    requires k < |table| && SlashLed(table) && (url != "" || PlainTable(table))
    ensures PlainHit(table, base, url, k) ==> FindFrom(table, base, url, k) == Some((table[k].0, NoParams))
    ensures !PlainHit(table, base, url, k) ==> FindFrom(table, base, url, k) == FindFrom(table, base, url, k + 1)
  {
    if !IsReserved(table[k].0) && HasParam(table[k].1) {
      LeadingSlashRoute(table[k].1, url);
    }
  }

  /**
   * Looking up the link of a route without placeholders gives back the first non-reserved
   * route that shares its pattern (the route itself when its pattern is unique), when the
   * placeholder patterns start with `/` and the link is not empty (or no route has a
   * placeholder).
   */
  lemma LookupArrowPath(table: seq<(string, string)>, base: string, k: nat)
    requires k < |table| && !IsReserved(table[k].0) && !HasParam(table[k].1)
    requires SlashLed(table) && (base + table[k].1 != "" || PlainTable(table))
    ensures exists j ::
              && 0 <= j <= k && table[j].1 == table[k].1 && !IsReserved(table[j].0)
              && FindArrowIdByUrl(table, base, ArrowPathOf(base, table[k].1, None)) == Some((table[j].0, NoParams))
              && forall i :: 0 <= i < j ==> IsReserved(table[i].0) || table[i].1 != table[k].1
  {
    var url := ArrowPathOf(base, table[k].1, None);
    assert PlainHit(table, base, url, k);
    FindMixedFrom(table, base, url, 0);
    var j :| 0 <= j < |table| && PlainHit(table, base, url, j)
      && table[j].0 == FindArrowIdByUrl(table, base, url).value.0
      && forall i :: 0 <= i < j ==> !PlainHit(table, base, url, i);
    assert base + table[j].1 == base + table[k].1;
    assert table[j].1 == (base + table[j].1)[|base|..];
    forall i | 0 <= i < j ensures IsReserved(table[i].0) || table[i].1 != table[k].1 {
      assert !PlainHit(table, base, url, i);
    }
  }

  /**
   * When every placeholder pattern starts with `/` (as the route type demands), a
   * non-empty URL never reaches a placeholder route: the answer carries `{}` parameters.
   */
  lemma {:induction false} NonEmptyUrlSkipsPlaceholders(table: seq<(string, string)>, base: string, url: string, k: nat)
    requires k <= |table| && url != ""
    requires forall j :: 0 <= j < |table| && HasParam(table[j].1) ==> StartsWith(table[j].1, '/')
    ensures FindFrom(table, base, url, k).Some?
    ensures FindFrom(table, base, url, k).value.1 == NoParams
    decreases |table| - k
  {
    if k < |table| {
      NonEmptyUrlSkipsPlaceholders(table, base, url, k + 1);
      if !IsReserved(table[k].0) && HasParam(table[k].1) {
        LeadingSlashRoute(table[k].1, url);
      }
    }
  }

  /** The empty URL stops at the first such placeholder route, with empty records. */
  lemma EmptyUrlTakesPlaceholder(table: seq<(string, string)>, base: string, k: nat)
    requires k < |table| && !IsReserved(table[k].0) && HasParam(table[k].1) && StartsWith(table[k].1, '/')
    requires forall i :: 0 <= i < k ==> IsReserved(table[i].0)
    ensures FindArrowIdByUrl(table, base, "") == Some((table[k].0, ExtraParams(Some([]), Some([]))))
  {
    LeadingSlashRoute(table[k].1, "");
    SkipReserved(table, base, "", 0, k);
  }

  lemma {:induction false} SkipReserved(table: seq<(string, string)>, base: string, url: string, i: nat, k: nat)
    requires i <= k <= |table|
    requires forall m :: i <= m < k ==> IsReserved(table[m].0)
    ensures FindFrom(table, base, url, i) == FindFrom(table, base, url, k)
    decreases k - i
  {
    if i < k {
      SkipReserved(table, base, url, i + 1, k);
    }
  }
}
