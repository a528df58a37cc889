/**
 * Route patterns (src/dark-elves.ts): the placeholder test `/\[([^\]]+)\]/`, the
 * piecewise encoding `_encode_path_pieces` applies to every pattern, and the
 * normalisation the router's constructor applies to its base path.
 */
module PathPattern {
  import opened Wrappers
  import opened Text
  import Uri

  /**
   * The regular expression `\[([^\]]+)\]` matches `s` at index `i` and ends at `j`:
   * `s[i]` is `[`, `s[j]` is the first `]` after it, and at least one character lies
   * between them (the captured name `s[i + 1..j]`).
   */
  predicate ParamAt(s: string, i: nat, j: nat)
  {
    i + 1 < j < |s| && s[i] == '[' && s[j] == ']' && ']' !in s[i + 1..j]
  }

  /** The index of the first `]` at or after `k`. */
  function CloseFrom(s: string, k: nat): (r: Option<nat>)
    requires k <= |s|
    ensures r.Some? ==> k <= r.value < |s| && s[r.value] == ']' && ']' !in s[k..r.value]
    ensures r.None? ==> ']' !in s[k..]
    decreases |s| - k
  {
    if k == |s| then None
    else if s[k] == ']' then Some(k)
    else
      var r := CloseFrom(s, k + 1);
      assert s[k..] == [s[k]] + s[k + 1..];
      assert r.Some? ==> s[k..r.value] == [s[k]] + s[k + 1..r.value];
      r
  }

  /** The leftmost match of the placeholder expression at or after `k`, as the indices of its brackets. */
  function FirstParamFrom(s: string, k: nat): (r: Option<(nat, nat)>)
    requires k <= |s|
    ensures r.Some? ==> k <= r.value.0 && ParamAt(s, r.value.0, r.value.1)
    ensures r.Some? ==> forall i, j :: k <= i < r.value.0 ==> !ParamAt(s, i, j)
    ensures r.None? ==> forall i, j :: k <= i ==> !ParamAt(s, i, j)
    decreases |s| - k
  {
    if k == |s| then None
    else if s[k] == '[' then
      match CloseFrom(s, k + 1)
      case Some(j) =>
        if j > k + 1 then Some((k, j))
        else
          assert s[k + 1] == ']';
          FirstParamFrom(s, k + 1)
      case None =>
        assert forall j' :: k < j' < |s| ==> s[j'] in s[k + 1..];
        FirstParamFrom(s, k + 1)
    else FirstParamFrom(s, k + 1)
  }

  /** `s.match(path_param_regex)[1]`: the name inside the first placeholder of `s`, if any. */
  function FirstParam(s: string): Option<string>
  {
    match FirstParamFrom(s, 0)
    case None => None
    case Some((i, j)) => Some(s[i + 1..j])
  }

  /** `path_param_regex.test(s)`. */
  predicate HasParam(s: string)
  {
    FirstParamFrom(s, 0).Some?
  }

  /** A placeholder name is never empty and holds no `]`; `test` holds exactly when some match exists. */
  lemma ParamShape(s: string)
    ensures FirstParam(s).Some? ==> FirstParam(s).value != "" && ']' !in FirstParam(s).value
    ensures HasParam(s) <==> FirstParam(s).Some?
    ensures HasParam(s) <==> exists i, j :: ParamAt(s, i, j)
  {
    if HasParam(s) {
      var (i, j) := FirstParamFrom(s, 0).value;
      assert ParamAt(s, i, j);
    }
  }

  /** A whole piece written `[name]` is a placeholder for `name`. */
  lemma PlaceholderPiece(name: string)
    requires name != [] && ']' !in name
    ensures FirstParam("[" + name + "]") == Some(name)
  {
    var s := "[" + name + "]";
    assert s[1..|s| - 1] == name;
    assert ParamAt(s, 0, |s| - 1);
  }

  /** A string holding no `[`, such as any output of `encodeURIComponent`, has no placeholder. */
  lemma NoBracketNoParam(s: string)
    requires '[' !in s
    ensures !HasParam(s)
  {
  }

  lemma EncodedHasNoParam(s: string)
    ensures !HasParam(Uri.EncodeURIComponent(s))
  {
    Uri.EncodedHasNo(s, '[');
    NoBracketNoParam(Uri.EncodeURIComponent(s));
  }

  // ---------------------------------------------------------------------------
  // _encode_path_pieces

  /** One piece of a pattern: a placeholder piece is kept, any other piece is encoded. */
  function EncodePiece(p: string): string
  {
    if HasParam(p) then p else Uri.EncodeURIComponent(p)
  }

  function EncodePieces(ps: seq<string>): (r: seq<string>)
    ensures |r| == |ps|
  {
    seq(|ps|, i requires 0 <= i < |ps| => EncodePiece(ps[i]))
  }

  /** `_encode_path_pieces(input)`: split on `/`, encode every non-placeholder piece, join on `/`. */
  function EncodePathPieces(input: string): string
  {
    Join(EncodePieces(Split(input, '/')), '/')
  }

  lemma EncodePiecesSeparatorFree(ps: seq<string>)
    requires SeparatorFree(ps, '/')
    ensures SeparatorFree(EncodePieces(ps), '/')
  {
    forall i | 0 <= i < |ps| ensures '/' !in EncodePieces(ps)[i] {
      if !HasParam(ps[i]) {
        Uri.EncodedHasNo(ps[i], '/');
      }
    }
  }

  /**
   * `_encode_path_pieces` keeps the number of `/`-pieces, returns every placeholder
   * piece unchanged and encodes every other piece.
   */
  lemma {:induction false} EncodePathPiecesShape(input: string)
    ensures var ps, qs := Split(input, '/'), Split(EncodePathPieces(input), '/');
      && |qs| == |ps|
      && (forall i :: 0 <= i < |ps| && HasParam(ps[i]) ==> qs[i] == ps[i])
      && (forall i :: 0 <= i < |ps| && !HasParam(ps[i]) ==> qs[i] == Uri.EncodeURIComponent(ps[i]))
  {
    var ps := Split(input, '/');
    EncodePiecesSeparatorFree(ps);
    SplitJoin(EncodePieces(ps), '/');
  }

  // ---------------------------------------------------------------------------
  // The base path

  function EncodeAll(ps: seq<string>): (r: seq<string>)
    ensures |r| == |ps|
  {
    seq(|ps|, i requires 0 <= i < |ps| => Uri.EncodeURIComponent(ps[i]))
  }

  /**
   * The constructor's base path: trailing `/` stripped, then every `/`-piece encoded
   * (placeholders included).
   */
  function NormaliseBasePath(raw: string): string
  {
    Join(EncodeAll(Split(TrimEnd(raw, '/'), '/')), '/')
  }

  /** The last piece of a split is empty exactly when the string is empty or ends in the separator. */
  lemma {:induction false} SplitLast(s: string, d: char)
    ensures var ps := Split(s, d); (ps[|ps| - 1] == "") <==> (s == "" || EndsWith(s, d))
    decreases |s|
  {
    if s != [] {
      var rest := Split(s[1..], d);
      SplitLast(s[1..], d);
      JoinSplit(s[1..], d);
      if |rest| == 1 {
        assert Join(rest, d) == rest[0] == s[1..];
      }
      if s[1..] != [] {
        assert EndsWith(s, d) == EndsWith(s[1..], d);
      }
    }
  }

  /** Encoding keeps an empty last piece empty, and only an empty one. */
  lemma EncodedLastPiece(ps: seq<string>)
    requires |ps| >= 1
    ensures (EncodeAll(ps)[|ps| - 1] == "") <==> (ps[|ps| - 1] == "")
  {
    Uri.EncodeUnreserved(ps[|ps| - 1]);
  }

  /** The last `/`-piece of a trimmed string is empty only when the whole string is. */
  lemma TrimmedLastPiece(raw: string)
    ensures var t := TrimEnd(raw, '/'); var ps := Split(t, '/');
      && ((ps[|ps| - 1] == "") <==> t == "")
      && (t == "" <==> ps == [""])
  {
    var t := TrimEnd(raw, '/');
    TrimEndShape(raw, '/');
    SplitLast(t, '/');
    JoinSplit(t, '/');
  }

  /** A join of separator-free pieces ends in the separator only when its last piece is empty, and is empty only for `[""]`. */
  lemma JoinEnd(qs: seq<string>, d: char)
    requires |qs| >= 1 && SeparatorFree(qs, d)
    ensures EndsWith(Join(qs, d), d) ==> qs[|qs| - 1] == ""
    ensures Join(qs, d) == "" <==> qs == [""]
  {
    SplitJoin(qs, d);
    SplitLast(Join(qs, d), d);
  }

  /**
   * The stored base path never ends in `/`, and its `/`-pieces are the encodings of
   * the pieces of the trimmed input.
   */
  lemma {:induction false} BasePathShape(raw: string)
    ensures !EndsWith(NormaliseBasePath(raw), '/')
    ensures Split(NormaliseBasePath(raw), '/') == EncodeAll(Split(TrimEnd(raw, '/'), '/'))
    ensures NormaliseBasePath(raw) == "" <==> TrimEnd(raw, '/') == ""
  {
    var t := TrimEnd(raw, '/');
    var ps := Split(t, '/');
    var qs := EncodeAll(ps);
    var r := Join(qs, '/');
    assert NormaliseBasePath(raw) == r;
    forall i | 0 <= i < |ps| ensures '/' !in qs[i] {
      Uri.EncodedHasNo(ps[i], '/');
    }
    assert SeparatorFree(qs, '/');
    SplitJoin(qs, '/');
    JoinEnd(qs, '/');
    TrimmedLastPiece(raw);
    EncodedLastPiece(ps);
    assert qs == [""] <==> ps == [""];
  }
}
