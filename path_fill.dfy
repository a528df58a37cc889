/**
 * `CrimsonRanger.arrow_path` (src/dark-elves.ts:149-209): the route's pattern with
 * its `[name]` placeholders filled from the `path` record, then a query string from
 * the `query` record, behind the base path.
 */
module PathFill {
  import opened Wrappers
  import opened Text
  import Uri

  /** A parameter value: one string or a list of strings. */
  datatype ParamValue = Str(s: string) | Arr(items: seq<string>)

  /** A `Record<string, string | string[]>`, in `Object.keys` order. */
  type ParamRecord = seq<(string, ParamValue)>

  /** `ExtraParams`: an optional record of path parameters and an optional record of query parameters. */
  datatype ExtraParams = ExtraParams(path: Option<ParamRecord>, query: Option<ParamRecord>)

  /** The `{}` the URL lookup returns for a route without placeholders. */
  const NoParams := ExtraParams(None, None)

  /** Object keys are distinct. */
  predicate DistinctNames(r: ParamRecord)
  {
    forall i, j :: 0 <= i < j < |r| ==> r[i].0 != r[j].0
  }

  /** The text `[name]` a path parameter fills. */
  function Placeholder(name: string): (pat: string)
    ensures |pat| == |name| + 2 && pat[0] == '['
  {
    "[" + name + "]"
  }

  // ---------------------------------------------------------------------------
  // Filling one piece

  /**
   * The values for which `while (piece.includes(p)) piece = piece.replace(p, v)` is
   * known to stop: each round either shortens the piece or removes one `[`.
   */
  predicate ReplaceTerminates(name: string, v: string)
  {
    |v| < |name| + 2 || '[' !in v
  }

  /** A path parameter the fill loop handles: a string value without `$` whose replacement loop stops. */
  predicate Fillable(name: string, v: ParamValue)
  {
    v.Str? ==> '$' !in v.s && ReplaceTerminates(name, v.s)
  }

  predicate FillableRecord(r: ParamRecord)
  {
    forall i :: 0 <= i < |r| ==> Fillable(r[i].0, r[i].1)
  }

  predicate FillableExtra(extra: Option<ExtraParams>)
  {
    extra.Some? && extra.value.path.Some? ==> FillableRecord(extra.value.path.value)
  }

  lemma ReplaceFirstMeasure(s: string, pat: string, v: string)
    requires Contains(s, pat) && |pat| > 0 && pat[0] == '['
    ensures |ReplaceFirst(s, pat, v)| == |s| - |pat| + |v|
    ensures Count(ReplaceFirst(s, pat, v), '[') < Count(s, '[') + Count(v, '[')
  {
    var i := IndexOf(s, pat).value;
    assert s == s[..i] + pat + s[i + |pat|..];
    assert multiset(pat)['['] >= 1 by {
      assert pat == [pat[0]] + pat[1..];
    }
  }

  /** The outcome of the `while`/`replace` loop on one piece (src/dark-elves.ts:173-175). */
  function ReplaceAll(s: string, name: string, v: string): (r: string)
    requires ReplaceTerminates(name, v)
    ensures !Contains(r, Placeholder(name))
    ensures !Contains(s, Placeholder(name)) ==> r == s
    decreases if |v| < |name| + 2 then |s| else Count(s, '[')
  {
    var pat := Placeholder(name);
    if !Contains(s, pat) then s
    else
      ReplaceFirstMeasure(s, pat, v);
      ReplaceAll(ReplaceFirst(s, pat, v), name, v)
  }

  /**
   * A value that holds its own placeholder keeps the loop going forever: after any
   * replacement the piece still contains the placeholder.
   */
  lemma ReplaceNeverClears(s: string, pat: string, v: string)
    requires Contains(s, pat) && Contains(v, pat)
    ensures Contains(ReplaceFirst(s, pat, v), pat)
  {
    var i := IndexOf(s, pat).value;
    var j := IndexOf(v, pat).value;
    var r := ReplaceFirst(s, pat, v);
    assert r == s[..i] + v + s[i + |pat|..];
    assert r[i + j..i + j + |pat|] == v[j..j + |pat|];
    assert OccursAt(r, pat, i + j);
    ContainsIff(r, pat);
  }

  /** The loop of the source, proved to compute `ReplaceAll`. */
  method ReplaceLoop(piece: string, name: string, v: string) returns (r: string)
    requires ReplaceTerminates(name, v)
    ensures r == ReplaceAll(piece, name, v)
  {
    r := piece;
    while Contains(r, Placeholder(name))
      invariant ReplaceAll(r, name, v) == ReplaceAll(piece, name, v)
      decreases if |v| < |name| + 2 then |r| else Count(r, '[')
    {
      ReplaceFirstMeasure(r, Placeholder(name), v);
      r := ReplaceFirst(r, Placeholder(name), v);
    }
  }

  /**
   * One piece after one parameter (src/dark-elves.ts:159-177): a piece without the
   * placeholder is untouched; otherwise a string value replaces every occurrence, an
   * array value replaces nothing, and the whole piece is then encoded.
   */
  function FillPiece(piece: string, name: string, v: ParamValue): string
    requires Fillable(name, v)
  {
    if !Contains(piece, Placeholder(name)) then piece
    else Uri.EncodeURIComponent(if v.Str? then ReplaceAll(piece, name, v.s) else piece)
  }

  function FillPieces(ps: seq<string>, name: string, v: ParamValue): (r: seq<string>)
    requires Fillable(name, v)
    ensures |r| == |ps|
  {
    seq(|ps|, i requires 0 <= i < |ps| => FillPiece(ps[i], name, v))
  }

  /** The path after one parameter: split on `/`, fill every piece, join on `/`. */
  function FillStep(path: string, name: string, v: ParamValue): string
    requires Fillable(name, v)
  {
    Join(FillPieces(Split(path, '/'), name, v), '/')
  }

  /** The path after every parameter of the record, in key order (src/dark-elves.ts:155-180). */
  function FillPath(path: string, r: ParamRecord): string
    requires FillableRecord(r)
    decreases |r|
  {
    if r == [] then path
    else FillPath(FillStep(path, r[0].0, r[0].1), r[1..])
  }

  /**
   * A filled piece decodes to the piece with every placeholder replaced (string value)
   * or to the piece as it was (array value), and holds neither `/` nor `[`.
   */
  lemma FillPieceDecodes(piece: string, name: string, v: ParamValue)
    requires Fillable(name, v) && Contains(piece, Placeholder(name))
    ensures Uri.DecodeURIComponent(FillPiece(piece, name, v))
      == Some(if v.Str? then ReplaceAll(piece, name, v.s) else piece)
    ensures '/' !in FillPiece(piece, name, v) && '[' !in FillPiece(piece, name, v)
  {
    var filled := if v.Str? then ReplaceAll(piece, name, v.s) else piece;
    Uri.DecodeEncode(filled);
    Uri.EncodedHasNo(filled, '/');
    Uri.EncodedHasNo(filled, '[');
  }

  /**
   * Filling one parameter keeps the number of `/`-pieces, and the pieces of the result
   * are the filled pieces of the input.
   */
  lemma FillStepPieces(path: string, name: string, v: ParamValue)
    requires Fillable(name, v)
    ensures Split(FillStep(path, name, v), '/') == FillPieces(Split(path, '/'), name, v)
  {
    var ps := Split(path, '/');
    forall i | 0 <= i < |ps| ensures '/' !in FillPieces(ps, name, v)[i] {
      if Contains(ps[i], Placeholder(name)) {
        FillPieceDecodes(ps[i], name, v);
      }
    }
    SplitJoin(FillPieces(ps, name, v), '/');
  }

  /** A record whose names appear nowhere in the path leaves the path unchanged. */
  lemma {:induction false} FillPathUnused(path: string, r: ParamRecord)
    requires FillableRecord(r)
    requires forall i :: 0 <= i < |r| ==> !Contains(path, Placeholder(r[i].0))
    ensures FillPath(path, r) == path
    decreases |r|
  {
    if r != [] {
      var ps := Split(path, '/');
      forall i | 0 <= i < |ps| ensures FillPieces(ps, r[0].0, r[0].1)[i] == ps[i] {
        if Contains(ps[i], Placeholder(r[0].0)) {
          PieceOccurrence(path, ps, i, Placeholder(r[0].0));
        }
      }
      assert FillPieces(ps, r[0].0, r[0].1) == ps;
      JoinSplit(path, '/');
      FillPathUnused(path, r[1..]);
    }
  }

  /** A pattern occurring in a `/`-piece occurs in the string. */
  lemma PieceOccurrence(s: string, ps: seq<string>, i: nat, pat: string)
    requires ps == Split(s, '/') && i < |ps| && Contains(ps[i], pat)
    ensures Contains(s, pat)
  {
    var k := IndexOf(ps[i], pat).value;
    JoinSplit(s, '/');
    var off := JoinPieceAt(ps, i, '/');
    assert s[off..off + |ps[i]|] == ps[i];
    assert OccursAt(ps[i], pat, k);
    SliceOfSlice(s, off, off + |ps[i]|, k, k + |pat|);
    assert OccursAt(s, pat, off + k);
    ContainsIff(s, pat);
  }

  /** A piece that is exactly the placeholder becomes the encoded value. */
  lemma FillWholePiece(name: string, v: string)
    requires Fillable(name, Str(v))
    ensures FillPiece(Placeholder(name), name, Str(v)) == Uri.EncodeURIComponent(v)
  {
    var pat := Placeholder(name);
    assert IndexOf(pat, pat) == Some(0);
    assert ReplaceFirst(pat, pat, v) == v;
  }

  lemma SplitTwoPieces(a: string, b: string)
    requires '/' !in a && '/' !in b
    ensures Split("/" + a + "/" + b, '/') == ["", a, b]
    ensures Join(["", a, b], '/') == "/" + a + "/" + b
  {
    assert "/" + a + "/" + b == "" + ['/'] + (a + ['/'] + b);
    SplitWithoutSeparator(b, '/');
    SplitAtSeparator(a, '/', b);
    SplitAtSeparator("", '/', a + ['/'] + b);
    assert ["", a, b][1..] == [a, b];
    assert Join([b], '/') == b;
  }

  /**
   * The shape of the router's own tests: the pattern `/<a>/[name]` with a string value
   * gives `/<a>/` followed by the encoded value (`/hello/John`, `/hello/Molly%20Schwartz`).
   */
  lemma FillSecondPiece(a: string, name: string, v: string)
    requires '/' !in a && '/' !in name && !Contains(a, Placeholder(name)) && Fillable(name, Str(v))
    ensures FillPath("/" + a + "/" + Placeholder(name), [(name, Str(v))])
      == "/" + a + "/" + Uri.EncodeURIComponent(v)
  {
    var pat := Placeholder(name);
    var e := Uri.EncodeURIComponent(v);
    SplitTwoPieces(a, pat);
    Uri.EncodedHasNo(v, '/');
    SplitTwoPieces(a, e);
    FillWholePiece(name, v);
    assert !Contains("", pat);
    assert FillPieces(["", a, pat], name, Str(v)) == ["", a, e];
    var r: ParamRecord := [(name, Str(v))];
    assert r[1..] == [];
  }

  /** The loop of the source over the `/`-pieces for one parameter, proved to compute `FillPieces`. */
  method FillPiecesLoop(original: seq<string>, name: string, v: ParamValue) returns (pieces: seq<string>)
    requires Fillable(name, v)
    ensures pieces == FillPieces(original, name, v)
  {
    pieces := original;
    for i := 0 to |pieces|
      invariant |pieces| == |original|
      invariant forall m :: 0 <= m < i ==> pieces[m] == FillPiece(original[m], name, v)
      invariant forall m :: i <= m < |pieces| ==> pieces[m] == original[m]
    {
      var piece := FillOnePiece(pieces[i], name, v);
      pieces := pieces[i := piece];
    }
  }

  /**
   * The body of that loop for one piece: a piece without the placeholder is skipped;
   * otherwise a string value is substituted and the piece encoded.
   */
  method FillOnePiece(piece: string, name: string, v: ParamValue) returns (filled: string)
    requires Fillable(name, v)
    ensures filled == FillPiece(piece, name, v)
  {
    filled := piece;
    if !Contains(piece, Placeholder(name)) {
      return;
    }
    if v.Str? {
      filled := ReplaceLoop(filled, name, v.s);
    }
    filled := Uri.EncodeURIComponent(filled);
  }

  /** The loops of the source over the record and over the pieces, proved to compute `FillPath`. */
  method FillPathParams(path: string, r: ParamRecord) returns (p: string)
    requires FillableRecord(r)
    ensures p == FillPath(path, r)
  {
    p := path;
    for k := 0 to |r|
      invariant FillPath(p, r[k..]) == FillPath(path, r)
    {
      var (name, v) := r[k];
      var pieces := FillPiecesLoop(Split(p, '/'), name, v);
      assert r[k..][1..] == r[k + 1..];
      p := Join(pieces, '/');
    }
  }

  // ---------------------------------------------------------------------------
  // The query string

  /** One `name=value` pair; the name is written as it is, the value encoded. */
  function Pair(name: string, value: string): string
  {
    name + "=" + Uri.EncodeURIComponent(value)
  }

  function ArrPairs(name: string, xs: seq<string>): (r: seq<string>)
    ensures |r| == |xs|
  {
    seq(|xs|, i requires 0 <= i < |xs| => Pair(name, xs[i]))
  }

  /** The pairs of one query parameter: one for a string, one per element for an array. */
  function Pairs(name: string, v: ParamValue): seq<string>
  {
    match v
    case Str(s) => [Pair(name, s)]
    case Arr(xs) => ArrPairs(name, xs)
  }

  /** The text one query parameter contributes. */
  function EntryText(name: string, v: ParamValue): string
  {
    Join(Pairs(name, v), '&')
  }

  function EntryTexts(r: ParamRecord): (t: seq<string>)
    ensures |t| == |r|
  {
    seq(|r|, i requires 0 <= i < |r| => EntryText(r[i].0, r[i].1))
  }

  /** The query string `arrow_path` appends (src/dark-elves.ts:181-205). */
  function QueryString(r: ParamRecord): string
  {
    if r == [] then "" else "?" + Join(EntryTexts(r), '&')
  }

  lemma EntryTextsSnoc(r: ParamRecord, k: nat)
    requires k < |r|
    ensures EntryTexts(r[..k + 1]) == EntryTexts(r[..k]) + [EntryText(r[k].0, r[k].1)]
  {
    var t, e := EntryTexts(r[..k]), EntryText(r[k].0, r[k].1);
    forall i | 0 <= i < k + 1 ensures EntryTexts(r[..k + 1])[i] == (t + [e])[i] {
      assert r[..k + 1][i] == r[i];
    }
  }

  lemma QueryStringSnoc(r: ParamRecord, k: nat)
    requires k < |r|
    ensures QueryString(r[..k + 1])
      == QueryString(r[..k]) + (if k == 0 then "?" else "&") + EntryText(r[k].0, r[k].1)
    ensures k > 0 ==> QueryString(r[..k]) != ""
  {
    var t := EntryTexts(r[..k]);
    var e := EntryText(r[k].0, r[k].1);
    EntryTextsSnoc(r, k);
    JoinSnoc(t, e, '&');
    var q := QueryString(r[..k + 1]);
    assert q == "?" + Join(t + [e], '&');
    if k == 0 {
      assert t == [];
    } else {
      assert r[..k] != [];
      assert QueryString(r[..k]) == "?" + Join(t, '&');
    }
  }

  lemma ArrPairsSnoc(name: string, xs: seq<string>, j: nat)
    requires j < |xs|
    ensures Join(ArrPairs(name, xs[..j + 1]), '&')
      == if j == 0 then Pair(name, xs[j]) else Join(ArrPairs(name, xs[..j]), '&') + "&" + Pair(name, xs[j])
  {
    assert ArrPairs(name, xs[..j + 1]) == ArrPairs(name, xs[..j]) + [Pair(name, xs[j])];
    JoinSnoc(ArrPairs(name, xs[..j]), Pair(name, xs[j]), '&');
  }

  /** The accumulator loop of the source, proved to compute `QueryString`. */
  method BuildQuery(r: ParamRecord) returns (query: string)
    ensures query == QueryString(r)
  {
    query := "";
    for k := 0 to |r|
      invariant query == QueryString(r[..k])
    {
      var (name, v) := r[k];
      QueryStringSnoc(r, k);
      if |query| == 0 {
        query := query + "?";
      } else {
        query := query + "&";
      }
      ghost var lead := query;
      if v.Str? {
        query := query + (name + "=" + Uri.EncodeURIComponent(v.s));
        assert query == lead + Pair(name, v.s);
      } else {
        query := AppendArrayPairs(query, name, v.items);
        assert query == lead + EntryText(name, v);
      }
    }
    assert r[..|r|] == r;
  }

  /** One `(name, value)` pair per element of an array value, in element order. */
  function Spread(name: string, xs: seq<string>): (r: seq<(string, string)>)
    ensures |r| == |xs|
  {
    seq(|xs|, i requires 0 <= i < |xs| => (name, xs[i]))
  }

  /** The inner loop of the source: the pairs of an array value, `&`-separated. */
  method AppendArrayPairs(lead: string, name: string, xs: seq<string>) returns (query: string)
    ensures query == lead + EntryText(name, Arr(xs))
  {
    query := lead;
    var first := true;
    for j := 0 to |xs|
      invariant first <==> j == 0
      invariant query == lead + Join(ArrPairs(name, xs[..j]), '&')
    {
      ghost var done := Join(ArrPairs(name, xs[..j]), '&');
      ghost var pair := Pair(name, xs[j]);
      ArrPairsSnoc(name, xs, j);
      if first {
        first := false;
        assert ArrPairs(name, xs[..j]) == [];
      } else {
        query := query + "&";
      }
      query := query + (name + "=" + Uri.EncodeURIComponent(xs[j]));
      assert query == lead + (if j == 0 then pair else done + "&" + pair);
    }
    assert xs[..|xs|] == xs;
  }

  /** The `(name, value)` pairs a query record stands for: one per string, one per array element. */
  function Flatten(r: ParamRecord): seq<(string, string)>
  {
    if r == [] then []
    else
      var (name, v) := r[0];
      (match v
       case Str(s) => [(name, s)]
       case Arr(xs) => Spread(name, xs))
      + Flatten(r[1..])
  }

  /** Reads one `name=value` segment back, decoding the value. */
  function ParsePair(seg: string): Option<(string, string)>
  {
    var parts := Split(seg, '=');
    if |parts| != 2 then None
    else
      match Uri.DecodeURIComponent(parts[1])
      case None => None
      case Some(value) => Some((parts[0], value))
  }

  /** Reads `&`-separated segments back, skipping empty ones. */
  function ParseSegments(segs: seq<string>): Option<seq<(string, string)>>
  {
    if segs == [] then Some([])
    else if segs[0] == "" then ParseSegments(segs[1..])
    else
      match (ParsePair(segs[0]), ParseSegments(segs[1..]))
      case (Some(p), Some(rest)) => Some([p] + rest)
      case _ => None
  }

  /** Reads a query string back into its `(name, value)` pairs. */
  function ParseQuery(q: string): Option<seq<(string, string)>>
  {
    if q == "" then Some([])
    else if q[0] != '?' then None
    else ParseSegments(Split(q[1..], '&'))
  }

  /** The segments a query record's string splits into: an empty array leaves an empty segment. */
  function Segments(r: ParamRecord): (segs: seq<string>)
    ensures r != [] ==> segs != []
  {
    if r == [] then [] else EntrySegments(r[0].0, r[0].1) + Segments(r[1..])
  }

  /** The segments of one entry: its pairs, or one empty segment for an empty array. */
  function EntrySegments(name: string, v: ParamValue): (segs: seq<string>)
    ensures segs != [] && Join(segs, '&') == EntryText(name, v)
  {
    var ps := Pairs(name, v);
    if ps == [] then [""] else ps
  }

  lemma EntryTextsCons(r: ParamRecord)
    requires r != []
    ensures EntryTexts(r) == [EntryText(r[0].0, r[0].1)] + EntryTexts(r[1..])
  {
    var t := [EntryText(r[0].0, r[0].1)] + EntryTexts(r[1..]);
    forall i | 0 <= i < |r| ensures EntryTexts(r)[i] == t[i] {
      if i > 0 {
        assert r[1..][i - 1] == r[i];
      }
    }
  }

  /** Query names the parser can read back: no `&` and no `=`. */
  predicate PlainNames(r: ParamRecord)
  {
    forall i :: 0 <= i < |r| ==> '&' !in r[i].0 && '=' !in r[i].0
  }

  lemma {:induction false} JoinEntryTexts(r: ParamRecord)
    requires r != []
    ensures Join(EntryTexts(r), '&') == Join(Segments(r), '&')
    decreases |r|
  {
    var head := EntrySegments(r[0].0, r[0].1);
    EntryTextsCons(r);
    assert Segments(r) == head + Segments(r[1..]);
    if |r| == 1 {
      assert Segments(r[1..]) == [] && head + [] == head;
      assert EntryTexts(r) == [EntryText(r[0].0, r[0].1)];
    } else {
      JoinEntryTexts(r[1..]);
      JoinAppend([EntryText(r[0].0, r[0].1)], EntryTexts(r[1..]), '&');
      JoinAppend(head, Segments(r[1..]), '&');
    }
  }

  lemma PairParses(name: string, value: string)
    requires '&' !in name && '=' !in name
    ensures ParsePair(Pair(name, value)) == Some((name, value))
    ensures '&' !in Pair(name, value) && Pair(name, value) != ""
  {
    var enc := Uri.EncodeURIComponent(value);
    Uri.EncodedHasNo(value, '=');
    Uri.EncodedHasNo(value, '&');
    assert Pair(name, value) == name + ['='] + enc;
    SplitAtSeparator(name, '=', enc);
    SplitWithoutSeparator(enc, '=');
    Uri.DecodeEncode(value);
  }

  lemma {:induction false} ParseSegmentsAppend(a: seq<string>, b: seq<string>)
    requires ParseSegments(a).Some? && ParseSegments(b).Some?
    ensures ParseSegments(a + b) == Some(ParseSegments(a).value + ParseSegments(b).value)
    decreases |a|
  {
    if a == [] {
      assert a + b == b;
      assert ParseSegments(a).value == [];
      assert [] + ParseSegments(b).value == ParseSegments(b).value;
    } else {
      assert (a + b)[0] == a[0] && (a + b)[1..] == a[1..] + b;
      ParseSegmentsAppend(a[1..], b);
      if a[0] != "" {
        var p := ParsePair(a[0]).value;
        var pa, pb := ParseSegments(a[1..]).value, ParseSegments(b).value;
        assert ParseSegments(a) == Some([p] + pa);
        assert ParseSegments(a[1..] + b) == Some(pa + pb);
        assert ParseSegments(a + b) == Some([p] + (pa + pb));
        assert [p] + (pa + pb) == ([p] + pa) + pb;
      }
    }
  }

  lemma {:induction false} ParseArrPairs(name: string, xs: seq<string>)
    requires '&' !in name && '=' !in name
    ensures ParseSegments(ArrPairs(name, xs)) == Some(Spread(name, xs))
    ensures SeparatorFree(ArrPairs(name, xs), '&')
    decreases |xs|
  {
    if xs != [] {
      ParseArrPairs(name, xs[1..]);
      PairParses(name, xs[0]);
      var ps := ArrPairs(name, xs);
      assert ps[0] == Pair(name, xs[0]) && ps[1..] == ArrPairs(name, xs[1..]);
      assert ParseSegments(ps) == Some([(name, xs[0])] + ParseSegments(ps[1..]).value);
      assert Spread(name, xs) == [(name, xs[0])] + Spread(name, xs[1..]);
      forall i | 0 <= i < |xs| ensures '&' !in ArrPairs(name, xs)[i] {
        PairParses(name, xs[i]);
      }
    }
  }

  lemma {:induction false} ParseAllSegments(r: ParamRecord)
    requires PlainNames(r)
    ensures ParseSegments(Segments(r)) == Some(Flatten(r))
    ensures SeparatorFree(Segments(r), '&')
    decreases |r|
  {
    if r != [] {
      var (name, v) := r[0];
      var head := EntrySegments(name, v);
      assert PlainNames(r[1..]) by {
        forall i | 0 <= i < |r[1..]| ensures '&' !in r[1..][i].0 && '=' !in r[1..][i].0 {
          assert r[1..][i] == r[i + 1];
        }
      }
      ParseAllSegments(r[1..]);
      match v
      case Str(s) =>
        PairParses(name, s);
        assert head == [Pair(name, s)] && head[1..] == [];
        assert ParseSegments(head[1..]) == Some([]);
        assert ParseSegments(head) == Some([(name, s)] + []);
      case Arr(xs) =>
        ParseArrPairs(name, xs);
        if xs == [] {
          assert ParseSegments(head) == Some([]);
          assert Spread(name, xs) == [];
        }
      ParseSegmentsAppend(head, Segments(r[1..]));
    }
  }

  /**
   * The query string reads back as the record's pairs in key order, one per string
   * value and one per array element in element order, values decoded; an empty array
   * leaves only a bare separator behind.
   */
  lemma QueryRoundTrip(r: ParamRecord)
    requires PlainNames(r)
    ensures ParseQuery(QueryString(r)) == Some(Flatten(r))
  {
    if r != [] {
      var q := QueryString(r);
      assert q[1..] == Join(EntryTexts(r), '&');
      JoinEntryTexts(r);
      ParseAllSegments(r);
      SplitJoin(Segments(r), '&');
    }
  }

  // ---------------------------------------------------------------------------
  // The whole path

  /**
   * `arrow_path(id, extra_params)` for a route whose stored pattern is `path`: the
   * query record is read only when a path record is present.
   */
  function ArrowPathOf(base: string, path: string, extra: Option<ExtraParams>): string
    requires FillableExtra(extra)
  {
    if extra.Some? && extra.value.path.Some? then
      base + FillPath(path, extra.value.path.value)
      + (if extra.value.query.Some? then QueryString(extra.value.query.value) else "")
    else base + path
  }
}
