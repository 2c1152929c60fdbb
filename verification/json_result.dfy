/** `JSONResult` of the current revision: the include and exclude settings,
    the exclusion test of SMD methods, the naming rules of the generated
    SMD description, and the choice of encoding.

    Regular expressions are kept as their source text; compiling them
    (`Pattern.compile`) is not modelled. */
module JsonResult {
  import opened Wrappers
  import opened Text
  import opened JavaModel
  import opened PathFilter
  import JsonUtil
  import Rpc
  import LegacyJsonInterceptor

  /** The regular expression `\.` that separates the levels of an include
      pattern, and the `\[` and `\]` around an index. */
  const LevelSep: string := "\\."
  const IndexOpen: string := "\\["
  const IndexClose: string := "\\]"

  /** Which text the entry without the index is cut from: the prefix of
      the whole expression at the index's offset within the last piece, as
      the code does, or the expression without the last piece's index. */
  datatype CutRule = AsWritten | Corrected

  /** `substring(0, -1)` when the piece holds no `\[`. */
  datatype ExpandError = StringIndexOutOfBounds

  /** `patternExpr` after `patternPiece` is appended. */
  function Append(expr: string, piece: string): (r: string)
    ensures EndsWith(r, piece)
    ensures |expr| > 0 ==> StartsWith(r, expr + LevelSep)
  {
    var r := (if |expr| > 0 then expr + LevelSep else expr) + piece;
    assert r[|r| - |piece|..] == piece;
    r
  }

  /** The expression of the first `n` pieces. */
  function Level(pieces: seq<string>, n: nat): string
    requires n <= |pieces|
  {
    if n == 0 then "" else Append(Level(pieces, n - 1), pieces[n - 1])
  }

  /** The entry for an indexed level without its last index. */
  function IndexCut(rule: CutRule, expr: string, piece: string): (r: Result<string, ExpandError>)
    requires EndsWith(expr, piece)
    ensures r.Failure? <==> !Contains(piece, IndexOpen)
  {
    match LastIndexOf(piece, IndexOpen)
    case None => Failure(StringIndexOutOfBounds)
    case Some(k) =>
      match rule
      case AsWritten => Success(expr[..k])
      case Corrected => Success(expr[..|expr| - |piece| + k])
  }

  /** Corrected, the cut entry is the level without the last piece's final
      index: putting that index back gives the level. */
  lemma CorrectedCutDropsIndex(expr: string, piece: string)
    requires EndsWith(expr, piece) && Contains(piece, IndexOpen)
    ensures var k := LastIndexOf(piece, IndexOpen).value;
      && StartsWith(piece[k..], IndexOpen)
      && !Contains(piece[k + 2..], IndexOpen)
      && IndexCut(Corrected, expr, piece).value + piece[k..] == expr
  {
    var k := LastIndexOf(piece, IndexOpen).value;
    assert piece[k..][..2] == piece[k..k + 2];
    var rest := piece[k + 2..];
    forall j: nat | j + 2 <= |rest|
      ensures !OccursAt(rest, IndexOpen, j)
    {
      assert rest[j..j + 2] == piece[k + 2 + j..k + 2 + j + 2];
      assert !OccursAt(piece, IndexOpen, k + 2 + j);
    }
    var a := |expr| - |piece|;
    assert expr[a..] == piece;
    assert expr[..a + k] + piece[k..] == expr[..a + k] + expr[a + k..];
  }

  /** On the first level the expression is the piece, and both rules cut
      at the same place. */
  lemma FirstLevelAgrees(piece: string)
    ensures EndsWith(piece, piece)
    ensures IndexCut(AsWritten, piece, piece) == IndexCut(Corrected, piece, piece)
  {
  }

  /** The entries added for a new level: the one without the index when
      the piece ends with `\]`. */
  function Extras(rule: CutRule, expr: string, piece: string): (r: Result<seq<string>, ExpandError>)
    requires EndsWith(expr, piece)
    ensures r.Success? ==> |r.value| <= 1
  {
    if EndsWith(piece, IndexClose) then
      var c :- IndexCut(rule, expr, piece);
      Success([c])
    else Success([])
  }

  /** `x` is the entry without the index that level `n` adds. */
  predicate IsCutOf(rule: CutRule, pieces: seq<string>, n: nat, x: string)
    requires 0 < n <= |pieces|
  {
    Extras(rule, Level(pieces, n), pieces[n - 1]) == Success([x])
  }

  /** `x` is one of the entries level `n` can add: the level itself, or its
      entry without the index. */
  predicate LevelEntryAt(rule: CutRule, pieces: seq<string>, n: nat, x: string)
    requires 0 < n <= |pieces|
  {
    x == Level(pieces, n) || IsCutOf(rule, pieces, n, x)
  }

  /** `x` is one of the entries a level after the `i`-th can add. */
  predicate LevelEntryFrom(rule: CutRule, pieces: seq<string>, i: nat, x: string) {
    exists n :: i < n <= |pieces| && LevelEntryAt(rule, pieces, n, x)
  }

  /** Every entry of `xs` from index `from` on is one a level after the
      `i`-th can add. */
  predicate OnlyLevelEntries(rule: CutRule, pieces: seq<string>, i: nat, xs: seq<string>, from: nat) {
    forall k :: from <= k < |xs| ==> LevelEntryFrom(rule, pieces, i, xs[k])
  }

  /** `x` is an entry some level of some listed pattern adds. */
  predicate PatternEntry(rule: CutRule, patterns: seq<string>, x: string) {
    exists j :: 0 <= j < |patterns| && LevelEntryFrom(rule, Pieces(patterns[j]), 0, x)
  }

  /** Every entry of `xs` from index `from` on is one some level of some
      listed pattern adds. */
  predicate OnlyPatternEntries(rule: CutRule, patterns: seq<string>, xs: seq<string>, from: nat) {
    forall k :: from <= k < |xs| ==> PatternEntry(rule, patterns, xs[k])
  }

  /** The loop over the pieces of one include pattern: each level not seen
      before is recorded and added, after its entry without the index. */
  function ExpandPieces(rule: CutRule, pieces: seq<string>, i: nat, expr: string,
                        existing: set<string>, out: seq<string>): (r: Result<(set<string>, seq<string>), ExpandError>)
    requires i <= |pieces|
    ensures r.Success? ==> existing <= r.value.0
    ensures r.Success? ==> |out| <= |r.value.1| && r.value.1[..|out|] == out
    decreases |pieces| - i
  {
    if i == |pieces| then Success((existing, out))
    else
      var e := Append(expr, pieces[i]);
      if e in existing then ExpandPieces(rule, pieces, i + 1, e, existing, out)
      else
        var extra :- Extras(rule, e, pieces[i]);
        var r := ExpandPieces(rule, pieces, i + 1, e, existing + {e}, out + extra + [e]);
        if r.Success? then
          assert r.value.1[..|out|] == (r.value.1[..|out + extra + [e]|])[..|out|];
          r
        else r
  }

  /** Started at level `i`, the loop adds nothing but later levels and, for
      an indexed level, its entry without the index. */
  lemma {:induction false} ExpandPiecesOnlyLevels(rule: CutRule, pieces: seq<string>, i: nat,
                                                  existing: set<string>, out: seq<string>)
    requires i <= |pieces|
    requires ExpandPieces(rule, pieces, i, Level(pieces, i), existing, out).Success?
    ensures OnlyLevelEntries(rule, pieces, i, ExpandPieces(rule, pieces, i, Level(pieces, i), existing, out).value.1, |out|)
    decreases |pieces| - i
  {
    if i < |pieces| {
      var existing', added := ExpandStepAdds(rule, pieces, i, existing, out);
      var r := ExpandPieces(rule, pieces, i, Level(pieces, i), existing, out).value;
      ExpandPiecesOnlyLevels(rule, pieces, i + 1, existing', out + added);
      LevelEntryLater(rule, pieces, i, r.1, |out + added|);
      AppendedEntries(rule, pieces, i, out, added, r.1);
    }
  }

  /** One step of the loop appends entries of level `i + 1` only. */
  lemma ExpandStepAdds(rule: CutRule, pieces: seq<string>, i: nat, existing: set<string>, out: seq<string>)
    returns (existing': set<string>, added: seq<string>)
    requires i < |pieces|
    requires ExpandPieces(rule, pieces, i, Level(pieces, i), existing, out).Success?
    ensures forall x | x in added :: LevelEntryFrom(rule, pieces, i, x)
    ensures ExpandPieces(rule, pieces, i, Level(pieces, i), existing, out)
         == ExpandPieces(rule, pieces, i + 1, Level(pieces, i + 1), existing', out + added)
  {
    var e := Append(Level(pieces, i), pieces[i]);
    assert e == Level(pieces, i + 1);
    if e in existing {
      existing', added := existing, [];
      assert out + added == out;
    } else {
      var extra := Extras(rule, e, pieces[i]).value;
      existing', added := existing + {e}, extra + [e];
      assert out + extra + [e] == out + added;
      forall x | x in added
        ensures LevelEntryFrom(rule, pieces, i, x)
      {
        if x == e {
          LevelItself(rule, pieces, i);
        } else {
          assert extra == [x];
          CutEntry(rule, pieces, i, x);
        }
      }
    }
  }

  /** An entry of a level after `i + 1` is one of a level after `i`. */
  lemma LevelEntryLater(rule: CutRule, pieces: seq<string>, i: nat, xs: seq<string>, from: nat)
    requires i < |pieces|
    requires OnlyLevelEntries(rule, pieces, i + 1, xs, from)
    ensures OnlyLevelEntries(rule, pieces, i, xs, from)
  {
    forall k | from <= k < |xs|
      ensures LevelEntryFrom(rule, pieces, i, xs[k])
    {
      assert LevelEntryFrom(rule, pieces, i + 1, xs[k]);
      var n :| i + 1 < n <= |pieces| && LevelEntryAt(rule, pieces, n, xs[k]);
      assert i < n;
    }
  }

  /** The entry without the index a new level adds is an entry of level
      `i + 1`. */
  lemma CutEntry(rule: CutRule, pieces: seq<string>, i: nat, x: string)
    requires i < |pieces|
    requires Extras(rule, Level(pieces, i + 1), pieces[i]) == Success([x])
    ensures LevelEntryFrom(rule, pieces, i, x)
  {
    assert LevelEntryAt(rule, pieces, i + 1, x);
  }

  /** A new level is an entry of itself. */
  lemma LevelItself(rule: CutRule, pieces: seq<string>, i: nat)
    requires i < |pieces|
    ensures LevelEntryFrom(rule, pieces, i, Level(pieces, i + 1))
  {
    assert LevelEntryAt(rule, pieces, i + 1, Level(pieces, i + 1));
  }

  /** Entries appended after `out`, each one of a level after `i`, and
      followed by such entries only, keep the output made of such entries. */
  lemma AppendedEntries(rule: CutRule, pieces: seq<string>, i: nat, out: seq<string>, added: seq<string>, xs: seq<string>)
    requires |out| + |added| <= |xs| && xs[..|out| + |added|] == out + added
    requires forall x | x in added :: LevelEntryFrom(rule, pieces, i, x)
    requires OnlyLevelEntries(rule, pieces, i, xs, |out| + |added|)
    ensures OnlyLevelEntries(rule, pieces, i, xs, |out|)
  {
    forall k | |out| <= k < |out| + |added|
      ensures LevelEntryFrom(rule, pieces, i, xs[k])
    {
      assert xs[k] == xs[..|out| + |added|][k] == added[k - |out|];
    }
  }

  /** The pieces of an include pattern: `pattern.split("\\\\\\.")`. */
  function Pieces(pattern: string): seq<string> {
    JavaSplit(pattern, LevelSep)
  }

  /** The loop over the patterns, sharing the record of levels seen: it
      adds nothing but levels of the patterns and their entries without
      the index. */
  function ExpandAll(rule: CutRule, patterns: seq<string>, existing: set<string>, out: seq<string>)
    : (r: Result<(set<string>, seq<string>), ExpandError>)
    ensures r.Success? ==> existing <= r.value.0
    ensures r.Success? ==> |out| <= |r.value.1| && r.value.1[..|out|] == out
    ensures r.Success? ==> OnlyPatternEntries(rule, patterns, r.value.1, |out|)
  {
    if |patterns| == 0 then Success((existing, out))
    else
      var next :- ExpandPieces(rule, Pieces(patterns[0]), 0, "", existing, out);
      var r := ExpandAll(rule, patterns[1..], next.0, next.1);
      if r.Success? then
        assert r.value.1[..|out|] == (r.value.1[..|next.1|])[..|out|];
        assert Level(Pieces(patterns[0]), 0) == "";
        ExpandPiecesOnlyLevels(rule, Pieces(patterns[0]), 0, existing, out);
        PatternEntries(rule, patterns, out, next.1, r.value.1);
        r
      else r
  }

  /** The entries of the first pattern, then those of the rest, are all
      entries of the patterns. */
  lemma PatternEntries(rule: CutRule, patterns: seq<string>, out: seq<string>, mid: seq<string>, xs: seq<string>)
    requires |patterns| > 0 && |out| <= |mid| <= |xs| && xs[..|mid|] == mid
    requires OnlyLevelEntries(rule, Pieces(patterns[0]), 0, mid, |out|)
    requires OnlyPatternEntries(rule, patterns[1..], xs, |mid|)
    ensures OnlyPatternEntries(rule, patterns, xs, |out|)
  {
    forall k | |out| <= k < |xs|
      ensures PatternEntry(rule, patterns, xs[k])
    {
      if k < |mid| {
        assert xs[k] == xs[..|mid|][k] == mid[k];
        assert LevelEntryFrom(rule, Pieces(patterns[0]), 0, xs[k]);
      } else {
        var j :| 0 <= j < |patterns[1..]| && LevelEntryFrom(rule, Pieces(patterns[1..][j]), 0, xs[k]);
        assert patterns[1..][j] == patterns[j + 1];
      }
    }
  }

  /** `setIncludeProperties(commaDelim)`: the include patterns before and
      after the call. A new list holds only levels of the listed patterns
      and, for an indexed level, its entry without the index. */
  function SetIncludeProperties(rule: CutRule, current: Option<seq<string>>, commaDelim: Option<string>)
    : (r: Result<Option<seq<string>>, ExpandError>)
    ensures JsonUtil.AsList(commaDelim).None? ==> r == Success(current)
    ensures JsonUtil.AsList(commaDelim).Some? && r.Success? ==> r.value.Some?
    ensures JsonUtil.AsList(commaDelim).Some? && r.Success? ==>
      OnlyPatternEntries(rule, JsonUtil.AsList(commaDelim).value, r.value.value, 0)
  {
    match JsonUtil.AsList(commaDelim)
    case None => Success(current)
    case Some(patterns) =>
      var res :- ExpandAll(rule, patterns, {}, []);
      Success(Some(res.1))
  }

  /** Every level entry the record holds is in the output. */
  predicate Recorded(existing: set<string>, out: seq<string>) {
    forall x | x in existing :: x in out
  }

  /** Every level after the `i`-th is in `seen`. */
  predicate LevelsSeen(pieces: seq<string>, i: nat, seen: set<string>) {
    forall n :: i < n <= |pieces| ==> Level(pieces, n) in seen
  }

  /** Expanding the pieces from level `i` records every later level and
      keeps the record within the output. */
  lemma {:induction false} ExpandPiecesLevels(rule: CutRule, pieces: seq<string>, i: nat,
                                              existing: set<string>, out: seq<string>)
    requires i <= |pieces| && Recorded(existing, out)
    requires ExpandPieces(rule, pieces, i, Level(pieces, i), existing, out).Success?
    ensures var r := ExpandPieces(rule, pieces, i, Level(pieces, i), existing, out).value;
      && Recorded(r.0, r.1)
      && LevelsSeen(pieces, i, r.0)
    decreases |pieces| - i
  {
    if i < |pieces| {
      var existing', out' := ExpandStep(rule, pieces, i, existing, out);
      ExpandPiecesLevels(rule, pieces, i + 1, existing', out');
      var r := ExpandPieces(rule, pieces, i + 1, Level(pieces, i + 1), existing', out').value;
      assert Level(pieces, i + 1) in r.0;
      assert LevelsSeen(pieces, i + 1, r.0);
    }
  }

  /** One step of the expansion: the next level is added, with the
      partial paths it brings, unless it was seen before. */
  lemma ExpandStep(rule: CutRule, pieces: seq<string>, i: nat, existing: set<string>, out: seq<string>)
    returns (existing': set<string>, out': seq<string>)
    requires i < |pieces| && Recorded(existing, out)
    requires ExpandPieces(rule, pieces, i, Level(pieces, i), existing, out).Success?
    ensures Level(pieces, i + 1) in existing' && existing <= existing' && Recorded(existing', out')
    ensures ExpandPieces(rule, pieces, i + 1, Level(pieces, i + 1), existing', out').Success?
    ensures ExpandPieces(rule, pieces, i, Level(pieces, i), existing, out)
         == ExpandPieces(rule, pieces, i + 1, Level(pieces, i + 1), existing', out')
  {
    var e := Append(Level(pieces, i), pieces[i]);
    assert e == Level(pieces, i + 1);
    if e in existing {
      existing', out' := existing, out;
    } else {
      var extra := Extras(rule, e, pieces[i]).value;
      existing', out' := existing + {e}, out + extra + [e];
    }
  }

  /** Expanding a pattern whose levels are all recorded changes nothing. */
  lemma {:induction false} ExpandPiecesSeen(rule: CutRule, pieces: seq<string>, i: nat,
                                            existing: set<string>, out: seq<string>)
    requires i <= |pieces|
    requires forall n :: i < n <= |pieces| ==> Level(pieces, n) in existing
    ensures ExpandPieces(rule, pieces, i, Level(pieces, i), existing, out) == Success((existing, out))
    decreases |pieces| - i
  {
    if i < |pieces| {
      assert Append(Level(pieces, i), pieces[i]) == Level(pieces, i + 1);
      ExpandPiecesSeen(rule, pieces, i + 1, existing, out);
    }
  }

  /** Every level of every pattern ends up in the include list. */
  lemma {:induction false} ExpandAllLevels(rule: CutRule, patterns: seq<string>, existing: set<string>, out: seq<string>)
    requires Recorded(existing, out)
    requires ExpandAll(rule, patterns, existing, out).Success?
    ensures var r := ExpandAll(rule, patterns, existing, out).value;
      && Recorded(r.0, r.1)
      && forall j, n :: 0 <= j < |patterns| && 0 < n <= |Pieces(patterns[j])| ==> Level(Pieces(patterns[j]), n) in r.0
  {
    if |patterns| > 0 {
      var ps := Pieces(patterns[0]);
      assert Level(ps, 0) == "";
      ExpandPiecesLevels(rule, ps, 0, existing, out);
      var next := ExpandPieces(rule, ps, 0, "", existing, out).value;
      ExpandAllLevels(rule, patterns[1..], next.0, next.1);
      var r := ExpandAll(rule, patterns, existing, out).value;
      assert r == ExpandAll(rule, patterns[1..], next.0, next.1).value;
      forall j, n | 0 <= j < |patterns| && 0 < n <= |Pieces(patterns[j])|
        ensures Level(Pieces(patterns[j]), n) in r.0
      {
        if j > 0 {
          assert patterns[j] == patterns[1..][j - 1];
        }
      }
    }
  }

  /** Every level of every include pattern is compiled: the list set by
      `setIncludeProperties` holds it. */
  lemma LevelsIncluded(rule: CutRule, current: Option<seq<string>>, commaDelim: Option<string>, j: nat, n: nat)
    requires SetIncludeProperties(rule, current, commaDelim).Success?
    requires JsonUtil.AsList(commaDelim).Some?
    requires var ps := JsonUtil.AsList(commaDelim).value; j < |ps| && 0 < n <= |Pieces(ps[j])|
    ensures var ps := JsonUtil.AsList(commaDelim).value;
      Level(Pieces(ps[j]), n) in SetIncludeProperties(rule, current, commaDelim).value.value
  {
    var ps := JsonUtil.AsList(commaDelim).value;
    ExpandAllLevels(rule, ps, {}, []);
  }

  /** A pattern listed again adds no entry: its levels are recorded. */
  lemma RepeatedPatternAddsNothing(rule: CutRule, pattern: string, existing: set<string>, out: seq<string>)
    requires Recorded(existing, out)
    requires ExpandAll(rule, [pattern], existing, out).Success?
    ensures var r := ExpandAll(rule, [pattern], existing, out).value;
      ExpandAll(rule, [pattern, pattern], existing, out) == Success(r)
  {
    ExpandAllLevels(rule, [pattern], existing, out);
    var r := ExpandAll(rule, [pattern], existing, out).value;
    var ps := Pieces(pattern);
    var next := ExpandPieces(rule, ps, 0, "", existing, out).value;
    assert ExpandAll(rule, [], next.0, next.1) == Success(next);
    assert r == next;
    assert [pattern, pattern][1..] == [pattern];
    assert [pattern][1..] == [];
    assert Level(ps, 0) == "";
    forall n | 0 < n <= |ps| ensures Level(ps, n) in r.0 {
      assert [pattern][0] == pattern;
    }
    ExpandPiecesSeen(rule, ps, 0, r.0, r.1);
  }

  /** The pattern `list\[\d+\]\.items\[\d+\]` and its two pieces. */
  const ListPiece: string := "list\\[\\d+\\]"
  const ItemsPiece: string := "items\\[\\d+\\]"
  const ListItems: string := "list\\[\\d+\\]\\.items\\[\\d+\\]"

  /** The second level's entry without its index: `list\` as written,
      `list\[\d+\]\.items` corrected. */
  function ListItemsCut(rule: CutRule): string {
    match rule
    case AsWritten => "list\\"
    case Corrected => "list\\[\\d+\\]\\.items"
  }

  /** The last `\[` of a text whose only `\[` after `k` is the one at `k`. */
  lemma LastIndexOpenAt(s: string, k: nat)
    requires OccursAt(s, IndexOpen, k)
    requires forall j :: k < j < |s| - 1 ==> s[j] != '\\' || s[j + 1] != '['
    ensures LastIndexOf(s, IndexOpen) == Some(k)
  {
    forall j: nat | k < j
      ensures !OccursAt(s, IndexOpen, j)
    {
      if j + 2 <= |s| {
        assert s[j..j + 2][0] == s[j] && s[j..j + 2][1] == s[j + 1];
      }
    }
  }

  /** The first level, `list\[\d+\]`, adds `list` under both rules. */
  lemma FirstLevelCut(rule: CutRule)
    ensures IndexCut(rule, ListPiece, ListPiece) == Success("list")
  {
    LastIndexOpenAt(ListPiece, 4);
    assert ListPiece[..4] == "list";
  }

  /** The second level is the whole pattern. */
  lemma SecondLevel()
    ensures Append(ListPiece, ItemsPiece) == ListItems
  {
  }

  /** The second level's entry without its index. */
  lemma SecondLevelCut(rule: CutRule)
    ensures IndexCut(rule, ListItems, ItemsPiece) == Success(ListItemsCut(rule))
  {
    LastIndexOpenAt(ItemsPiece, 5);
    match rule
    case AsWritten =>
      assert ListItems[..5] == "list\\";
    case Corrected =>
      assert ListItems[..18] == "list\\[\\d+\\]\\.items";
  }

  /** The loop over a pattern of two new levels, each with an index. */
  lemma TwoLevels(rule: CutRule, a: string, b: string, ca: string, cb: string)
    requires EndsWith(a, a) && Append(a, b) != a
    requires Extras(rule, a, a) == Success([ca])
    requires Extras(rule, Append(a, b), b) == Success([cb])
    ensures ExpandPieces(rule, [a, b], 0, "", {}, []) == Success(({a, Append(a, b)}, [ca, a, cb, Append(a, b)]))
  {
    var ps, e := [a, b], Append(a, b);
    var out := [ca, a, cb, e];
    assert Append("", a) == a;
    assert [] + [ca] + [a] == [ca, a];
    assert [ca, a] + [cb] + [e] == out;
    assert {} + {a} == {a};
    assert {a} + {e} == {a, e};
    assert ExpandPieces(rule, ps, 2, e, {a, e}, out) == Success(({a, e}, out));
    assert ExpandPieces(rule, ps, 1, a, {a}, [ca, a]) == ExpandPieces(rule, ps, 2, e, {a, e}, out);
    assert ExpandPieces(rule, ps, 0, "", {}, []) == ExpandPieces(rule, ps, 1, a, {a}, [ca, a]);
  }

  /** The include list built from a comma list holding one pattern. */
  lemma OnePattern(rule: CutRule, current: Option<seq<string>>, p: string, x: (set<string>, seq<string>))
    requires JsonUtil.AsList(Some(p)) == Some([p])
    requires ExpandPieces(rule, Pieces(p), 0, "", {}, []) == Success(x)
    ensures SetIncludeProperties(rule, current, Some(p)) == Success(Some(x.1))
  {
    assert [p][1..] == [] && [p][0] == p;
    assert ExpandAll(rule, [], x.0, x.1) == Success(x);
    assert ExpandAll(rule, [p], {}, []) == Success(x);
  }

  /** The include list `setIncludeProperties` builds from the pattern
      `list\[\d+\]\.items\[\d+\]`: as written its third entry is `list\`, a
      malformed expression, instead of `list\[\d+\]\.items`. */
  lemma ListItemsIncludes(rule: CutRule, current: Option<seq<string>>)
    ensures SetIncludeProperties(rule, current, Some(ListItems))
      == Success(Some(["list", ListPiece, ListItemsCut(rule), ListItems]))
  {
    FirstLevelCut(rule);
    SecondLevel();
    SecondLevelCut(rule);
    assert |ListItems| != |ListPiece|;
    TwoLevels(rule, ListPiece, ItemsPiece, "list", ListItemsCut(rule));
    PiecesOfListItems();
    ListItemsListed();
    OnePattern(rule, current, ListItems, ({ListPiece, ListItems}, ["list", ListPiece, ListItemsCut(rule), ListItems]));
  }

  /** The comma list `list\[\d+\]\.items\[\d+\]` holds the one pattern. */
  lemma ListItemsListed()
    ensures JsonUtil.AsList(Some(ListItems)) == Some([ListItems])
  {
    assert ',' !in ListItems;
    JsonUtil.AsListJoin([ListItems]);
  }

  /** A text in which no `\` is followed by `.` holds no `\.`. */
  lemma NoLevelSep(s: string)
    requires forall j :: 0 <= j < |s| - 1 ==> s[j] != '\\' || s[j + 1] != '.'
    ensures !Contains(s, LevelSep)
  {
    forall j: nat | j + 2 <= |s|
      ensures !OccursAt(s, LevelSep, j)
    {
      assert s[j..j + 2][0] == s[j] && s[j..j + 2][1] == s[j + 1];
    }
  }

  /** In `a\.b` with no `\.` inside `a`, the first `\.` follows `a`. */
  lemma LevelSepAfter(a: string, b: string)
    requires !Contains(a, LevelSep)
    ensures IndexOf(a + LevelSep + b, LevelSep) == Some(|a|)
  {
    var s := a + LevelSep + b;
    assert s[|a|..|a| + 2] == LevelSep;
    assert OccursAt(s, LevelSep, |a|);
    forall j: nat | j < |a|
      ensures !OccursAt(s, LevelSep, j)
    {
      if j + 2 <= |a| {
        assert s[j..j + 2] == a[j..j + 2];
        assert !OccursAt(a, LevelSep, j);
      } else {
        assert s[j..j + 2][1] == s[j + 1] == '\\';
      }
    }
  }

  /** Splitting `a\.b` at `\.`, with no `\.` in `a` or `b` and `b`
      non-empty, gives `a` and `b`. */
  lemma SplitTwoLevels(a: string, b: string)
    requires !Contains(a, LevelSep) && !Contains(b, LevelSep) && |b| > 0
    ensures Pieces(a + LevelSep + b) == [a, b]
  {
    var s := a + LevelSep + b;
    LevelSepAfter(a, b);
    assert s[|a| + 2..] == b;
    assert s[..|a|] == a;
    assert SplitOn(b, LevelSep) == [b];
    assert SplitOn(s, LevelSep) == [a, b];
  }

  /** The pieces of `list\[\d+\]\.items\[\d+\]`. */
  lemma PiecesOfListItems()
    ensures Pieces(ListItems) == [ListPiece, ItemsPiece]
  {
    assert ListItems == ListPiece + LevelSep + ItemsPiece;
    NoLevelSep(ListPiece);
    NoLevelSep(ItemsPiece);
    SplitTwoLevels(ListPiece, ItemsPiece);
  }

  /** `setExcludeProperties(commaDelim)`: the exclude patterns before and
      after the call. */
  function SetExcludeProperties(current: Option<seq<string>>, commaDelim: Option<string>): (r: Option<seq<string>>)
    ensures JsonUtil.AsList(commaDelim).None? ==> r == current
    ensures r.Some? && r != current ==> forall k :: 0 <= k < |r.value| ==> |r.value[k]| > 0 && ',' !in r.value[k]
  {
    var l := JsonUtil.AsList(commaDelim);
    if l.None? then current
    else
      JsonUtil.AsListItems(commaDelim.value);
      l
  }

  /** Setting the comma-joined patterns gives back exactly those patterns. */
  lemma SetExcludeJoined(current: Option<seq<string>>, patterns: seq<string>)
    requires |patterns| > 0
    requires forall k :: 0 <= k < |patterns| ==>
      var x := patterns[k]; |x| > 0 && !IsTrimmable(x[0]) && !IsTrimmable(x[|x| - 1]) && ',' !in x
    ensures SetExcludeProperties(current, Some(Join(",", patterns))) == Some(patterns)
  {
    JsonUtil.AsListJoin(patterns);
  }

  /** `shouldExcludeProperty(expr)` of the result: some exclude pattern
      matches the whole expression. */
  function ShouldExcludeMethod(excludes: Option<seq<Matcher>>, name: string): (r: bool)
    ensures r <==> excludes.Some? && exists k :: 0 <= k < |excludes.value| && excludes.value[k](name)
  {
    excludes.Some? && LegacyShouldExclude(excludes.value, name)
  }

  /** A method of the generated SMD: its published name and parameter
      names. */
  datatype SmdMethodEntry = SmdMethodEntry(name: string, parameters: seq<string>)

  /** The published name: the annotation's `name` when given, else the
      Java name. */
  function SmdName(m: MethodDesc): string
    requires m.smd.Some?
  {
    if |m.smd.value.alias| == 0 then m.name else m.smd.value.alias
  }

  /** The name of parameter `i`: its `@SMDMethodParameter` name, else
      `p` and its position. */
  function ParamName(m: MethodDesc, i: nat): string {
    if i < |m.paramNames| && m.paramNames[i].Some? then m.paramNames[i].value else "p" + IntToString(i)
  }

  function SmdEntry(m: MethodDesc): (r: SmdMethodEntry)
    requires m.smd.Some?
    ensures |r.parameters| == |m.params|
  {
    SmdMethodEntry(SmdName(m), seq(|m.params|, i requires 0 <= i => ParamName(m, i)))
  }

  /** The loop of `writeSMD` over the listed methods: annotated methods
      whose Java name is not excluded, in order. */
  function SmdMethods(ms: seq<MethodDesc>, excludes: Option<seq<Matcher>>): (r: seq<SmdMethodEntry>)
    ensures |r| <= |ms|
  {
    if |ms| == 0 then []
    else
      var rest := SmdMethods(ms[1..], excludes);
      if ms[0].smd.Some? && !ShouldExcludeMethod(excludes, ms[0].name) then [SmdEntry(ms[0])] + rest else rest
  }

  /** The methods `writeSMD` describes for a root of class `cls`. */
  function WriteSmd(u: ClassTable, cls: string, ignoreInterfaces: bool, excludes: Option<seq<Matcher>>): (r: seq<SmdMethodEntry>)
    requires Closed(u) && cls in u
    ensures |r| <= |JsonUtil.ListSMDMethods(u, cls, ignoreInterfaces)|
    ensures forall m | m in JsonUtil.ListSMDMethods(u, cls, ignoreInterfaces) && Described(m, excludes) :: SmdEntry(m) in r
  {
    var ms := JsonUtil.ListSMDMethods(u, cls, ignoreInterfaces);
    forall m | m in ms && Described(m, excludes) ensures SmdEntry(m) in SmdMethods(ms, excludes) {
      SmdMethodsMembers(ms, excludes, SmdEntry(m));
    }
    SmdMethods(ms, excludes)
  }

  /** Described method, annotated and not excluded. */
  predicate Described(m: MethodDesc, excludes: Option<seq<Matcher>>) {
    m.smd.Some? && !ShouldExcludeMethod(excludes, m.name)
  }

  /** An entry is in the description exactly when it describes a listed,
      annotated, not excluded method. */
  lemma {:induction false} SmdMethodsMembers(ms: seq<MethodDesc>, excludes: Option<seq<Matcher>>, e: SmdMethodEntry)
    ensures e in SmdMethods(ms, excludes) <==>
      exists m :: m in ms && Described(m, excludes) && e == SmdEntry(m)
  {
    if |ms| > 0 {
      SmdMethodsMembers(ms[1..], excludes, e);
      if exists m :: m in ms && Described(m, excludes) && e == SmdEntry(m) {
        var m :| m in ms && Described(m, excludes) && e == SmdEntry(m);
        if m != ms[0] {
          assert m in ms[1..];
        }
      }
      if exists m :: m in ms[1..] && Described(m, excludes) && e == SmdEntry(m) {
        var m :| m in ms[1..] && Described(m, excludes) && e == SmdEntry(m);
        assert m in ms;
      }
    }
  }

  /** Exclusion is decided by the Java name: an annotated method whose
      Java name is excluded is not described, whatever its alias, and its
      entry appears only when another described method has the same one. */
  lemma ExcludedByJavaName(ms: seq<MethodDesc>, excludes: Option<seq<Matcher>>, m: MethodDesc)
    requires m.smd.Some? && ShouldExcludeMethod(excludes, m.name)
    ensures !Described(m, excludes)
    ensures SmdEntry(m) in SmdMethods(ms, excludes) ==>
      exists m' :: m' in ms && m' != m && Described(m', excludes) && SmdEntry(m') == SmdEntry(m)
  {
    SmdMethodsMembers(ms, excludes, SmdEntry(m));
  }

  /** Parameters without an annotation are named `p0`, `p1`, ... so their
      names are pairwise different. */
  lemma DefaultParamNames(m: MethodDesc, i: nat, j: nat)
    requires m.smd.Some? && i < j < |m.params|
    requires i >= |m.paramNames| || m.paramNames[i].None?
    requires j >= |m.paramNames| || m.paramNames[j].None?
    ensures SmdEntry(m).parameters[i] == "p" + IntToString(i)
    ensures SmdEntry(m).parameters[i] != SmdEntry(m).parameters[j]
  {
    var e := SmdEntry(m);
    if e.parameters[i] == e.parameters[j] {
      assert ("p" + IntToString(i))[1..] == IntToString(i);
      assert ("p" + IntToString(j))[1..] == IntToString(j);
      IntToStringInjective(i, j);
    }
  }

  /** Every method the description publishes can be called under its
      published name and parameter count through the interceptor that
      lists methods the same way: the call finds a method of that arity
      published under that name, and finds this very method when no other
      listed method answers to the same name and arity. */
  lemma DescribedCallable(u: ClassTable, cls: string, ignoreInterfaces: bool, excludes: Option<seq<Matcher>>,
                          m: MethodDesc)
    requires Closed(u) && cls in u
    requires m in JsonUtil.ListSMDMethods(u, cls, ignoreInterfaces) && Described(m, excludes)
    ensures SmdEntry(m) in WriteSmd(u, cls, ignoreInterfaces, excludes)
    ensures var f := LegacyJsonInterceptor.GetMethod(u, ignoreInterfaces, cls, SmdName(m), |m.params|);
      && f.Some? && f.value.smd.Some? && |f.value.params| == |m.params|
      && (SmdName(m) != "" ==> SmdName(f.value) == SmdName(m))
    ensures (forall m' | m' in JsonUtil.ListSMDMethods(u, cls, ignoreInterfaces) ::
               Rpc.SignatureMatches(m', SmdName(m), |m.params|) ==> m' == m) ==>
      LegacyJsonInterceptor.GetMethod(u, ignoreInterfaces, cls, SmdName(m), |m.params|) == Some(m)
  {
    var ms := JsonUtil.ListSMDMethods(u, cls, ignoreInterfaces);
    SmdMethodsMembers(ms, excludes, SmdEntry(m));
    assert Rpc.SignatureMatches(m, SmdName(m), |m.params|);
    var f := LegacyJsonInterceptor.GetMethod(u, ignoreInterfaces, cls, SmdName(m), |m.params|);
    assert f.Some? && f.value in ms && Rpc.SignatureMatches(f.value, SmdName(m), |m.params|);
  }

  /** The initial `defaultEncoding`. */
  const InitialEncoding: Option<string> := Some("ISO-8859-1")

  /** `getEncoding()`: the configured encoding, else the `file.encoding`
      system property, else `UTF-8`. */
  function GetEncoding(defaultEncoding: Option<string>, fileEncoding: Option<string>): (r: string)
    ensures defaultEncoding.Some? ==> r == defaultEncoding.value
    ensures defaultEncoding.None? && fileEncoding.Some? ==> r == fileEncoding.value
    ensures r == "UTF-8" || Some(r) == defaultEncoding || Some(r) == fileEncoding
  {
    if defaultEncoding.Some? then defaultEncoding.value
    else if fileEncoding.Some? then fileEncoding.value
    else "UTF-8"
  }

  /** The field's initial value, before the container injects
      `struts.i18n.encoding`, is ISO-8859-1, and it is used whatever the
      platform's encoding. */
  lemma InitialEncodingUsed(fileEncoding: Option<string>)
    ensures GetEncoding(InitialEncoding, fileEncoding) == "ISO-8859-1"
  {
  }
}
