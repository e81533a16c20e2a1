/**
 * Reading a comma-separated list from the environment, as the API server does
 * for its allowed origins and retired signing secrets: split on ",", strip
 * each piece of whitespace, drop the pieces left empty.
 */
module EnvSettings {
  import opened Wrappers
  import opened Strings

  /** The characters Python's `str.strip()` removes (`str.isspace()`). */
  predicate IsSpace(c: char) {
    c == ' ' || '\t' <= c <= '\r' || '\U{1c}' <= c <= '\U{1f}' || c == '\U{85}' || c == '\U{a0}'
    || c == '\U{1680}' || '\U{2000}' <= c <= '\U{200a}' || c == '\U{2028}' || c == '\U{2029}'
    || c == '\U{202f}' || c == '\U{205f}' || c == '\U{3000}'
  }

  /** `s.lstrip()`: the suffix of `s` after its leading whitespace. */
  function StripStart(s: string): (r: string)
    ensures |r| <= |s| && r == s[|s| - |r|..]
    ensures forall i | 0 <= i < |s| - |r| :: IsSpace(s[i])
    ensures r == [] || !IsSpace(r[0])
    ensures multiset(r) <= multiset(s)
    decreases |s|
  {
    if s != [] && IsSpace(s[0]) then
      assert s == [s[0]] + s[1..];
      StripStart(s[1..])
    else s
  }

  /** `s.rstrip()`: the prefix of `s` before its trailing whitespace. */
  function StripEnd(s: string): (r: string)
    ensures |r| <= |s| && r == s[..|r|]
    ensures forall i | |r| <= i < |s| :: IsSpace(s[i])
    ensures r == [] || !IsSpace(r[|r| - 1])
    ensures multiset(r) <= multiset(s)
    decreases |s|
  {
    if s != [] && IsSpace(s[|s| - 1]) then
      assert s == s[..|s| - 1] + [s[|s| - 1]];
      StripEnd(s[..|s| - 1])
    else s
  }

  /** Nothing but whitespace (or nothing at all). */
  predicate Blank(s: string) {
    forall i | 0 <= i < |s| :: IsSpace(s[i])
  }

  /** `s.strip()`. */
  function Strip(s: string): string {
    StripEnd(StripStart(s))
  }

  /** Stripping removes only characters of `s`, leaves no whitespace at either end, leaves
      a string without surrounding whitespace as it is, and empties exactly the strings
      made of whitespace. */
  lemma StripShape(s: string)
    ensures multiset(Strip(s)) <= multiset(s)
    ensures var r := Strip(s); r == [] || (!IsSpace(r[0]) && !IsSpace(r[|r| - 1]))
    ensures s == [] || (!IsSpace(s[0]) && !IsSpace(s[|s| - 1])) ==> Strip(s) == s
    ensures Blank(s) <==> Strip(s) == []
  {
    StripEnds(s);
    if s == [] || (!IsSpace(s[0]) && !IsSpace(s[|s| - 1])) {
      StripKeeps(s);
    }
    StripEmptyIffBlank(s);
  }

  lemma StripEnds(s: string)
    ensures var r := Strip(s); r == [] || (!IsSpace(r[0]) && !IsSpace(r[|r| - 1]))
  {
    var t := StripStart(s);
    var r := StripEnd(t);
    if r != [] {
      assert r == t[..|r|];
      assert t != [] && r[0] == t[0];
      assert !IsSpace(t[0]) && !IsSpace(r[|r| - 1]);
    }
  }

  lemma StripKeeps(s: string)
    requires s == [] || (!IsSpace(s[0]) && !IsSpace(s[|s| - 1]))
    ensures Strip(s) == s
  {
  }

  lemma StripEmptyIffBlank(s: string)
    ensures Blank(s) <==> Strip(s) == []
  {
    var t := StripStart(s);
    assert StripEnd(t) == [] || StripEnd(t)[0] == t[0];
  }

  /** The kept items of the pieces, each stripped. */
  function Items(pieces: seq<string>): (items: seq<string>)
    ensures |items| <= |pieces|
    decreases |pieces|
  {
    if pieces == [] then []
    else
      var s := Strip(pieces[0]);
      (if s == [] then [] else [s]) + Items(pieces[1..])
  }

  /** `_get_list(env_name, default)`: the variable's value, or `default` when it is unset
      (an empty value is used as it is), read as a list. */
  function GetList(env: map<string, string>, name: string, default: string): seq<string> {
    var raw := if name in env then env[name] else default;
    Items(Split(raw, ','))
  }

  /** A well-formed item: non-empty, no comma, no surrounding whitespace. */
  predicate IsItem(x: string) {
    x != [] && ',' !in x && !IsSpace(x[0]) && !IsSpace(x[|x| - 1])
  }

  /** One piece at a time. */
  lemma ItemsCons(pieces: seq<string>)
    requires pieces != []
    ensures Items(pieces) == (if Strip(pieces[0]) == [] then [] else [Strip(pieces[0])]) + Items(pieces[1..])
  {
  }

  /** Every item is well formed. */
  lemma {:induction false} ItemsShape(pieces: seq<string>)
    requires forall i | 0 <= i < |pieces| :: ',' !in pieces[i]
    ensures forall i | 0 <= i < |Items(pieces)| :: IsItem(Items(pieces)[i])
    decreases |pieces|
  {
    if pieces != [] {
      ItemsShape(pieces[1..]);
      ItemsCons(pieces);
      StrippedPiece(pieces[0]);
      AllItems(if Strip(pieces[0]) == [] then [] else [Strip(pieces[0])], Items(pieces[1..]));
    }
  }

  lemma StrippedPiece(p: string)
    requires ',' !in p
    ensures Strip(p) == [] || IsItem(Strip(p))
  {
    StripEnds(p);
    assert multiset(Strip(p))[','] <= multiset(p)[','];
  }

  lemma AllItems(a: seq<string>, b: seq<string>)
    requires forall i | 0 <= i < |a| :: IsItem(a[i])
    requires forall i | 0 <= i < |b| :: IsItem(b[i])
    ensures forall i | 0 <= i < |a + b| :: IsItem((a + b)[i])
  {
    forall i | 0 <= i < |a + b| ensures IsItem((a + b)[i]) {
      if i >= |a| {
        assert (a + b)[i] == b[i - |a|];
      }
    }
  }

  /** Whatever the raw value, `_get_list` yields well-formed items. */
  lemma GetListShape(env: map<string, string>, name: string, default: string)
    ensures forall i | 0 <= i < |GetList(env, name, default)| :: IsItem(GetList(env, name, default)[i])
  {
    var raw := if name in env then env[name] else default;
    ItemsShape(Split(raw, ','));
  }

  /** Splitting at a first comma: the piece before it, then the pieces of the rest. */
  lemma SplitAtComma(a: string, b: string)
    requires ',' !in a
    ensures Split(a + "," + b, ',') == [a] + Split(b, ',')
  {
    var s := a + "," + b;
    assert OccursAt(s, [','], |a|);
    forall j: nat | j < |a| ensures !OccursAt(s, [','], j) {
      assert s[j] == a[j];
    }
    FindIs(s, [','], |a|);
    assert s[..|a|] == a && s[|a| + 1..] == b;
  }

  /** A value without a comma is a single piece. */
  lemma SplitNoComma(a: string)
    requires ',' !in a
    ensures Split(a, ',') == [a]
  {
    forall j: nat | j < |a| ensures !OccursAt(a, [','], j) {
      assert a[j..j + 1] == [a[j]];
    }
  }

  /** Joining well-formed items with commas and reading them back gives the same list: the
      setting lists exactly the items written into it, in their order. */
  lemma {:induction false} GetListOfJoin(items: seq<string>)
    requires forall i | 0 <= i < |items| :: IsItem(items[i])
    ensures Items(Split(Join(items, ","), ',')) == items
    decreases |items|
  {
    if items == [] {
      SplitNoComma("");
      ItemsCons([""]);
      StripKeeps("");
    } else {
      var x := items[0];
      assert IsItem(x);
      StripKeeps(x);
      if |items| == 1 {
        SplitNoComma(x);
        ItemsCons([x]);
        assert [x][1..] == [];
      } else {
        var tail := Join(items[1..], ",");
        assert Join(items, ",") == x + "," + tail;
        GetListOfJoin(items[1..]);
        SplitAtComma(x, tail);
        var pieces := [x] + Split(tail, ',');
        ItemsCons(pieces);
        assert pieces[0] == x && pieces[1..] == Split(tail, ',');
        assert items == [x] + items[1..];
      }
    }
  }

  /** Pieces made only of whitespace, empty ones included, give no items. */
  lemma {:induction false} BlankGivesNothing(pieces: seq<string>)
    requires forall i | 0 <= i < |pieces| :: Blank(pieces[i])
    ensures Items(pieces) == []
    decreases |pieces|
  {
    if pieces != [] {
      StripEmptyIffBlank(pieces[0]);
      ItemsCons(pieces);
      BlankGivesNothing(pieces[1..]);
    }
  }

  /** Only whitespace and commas. */
  predicate SpacesAndCommas(raw: string) {
    forall i | 0 <= i < |raw| :: raw[i] == ',' || IsSpace(raw[i])
  }

  /** Splitting a value made only of whitespace and commas gives only blank pieces. */
  lemma {:induction false} PiecesBlank(raw: string)
    requires SpacesAndCommas(raw)
    ensures forall k | 0 <= k < |Split(raw, ',')| :: Blank(Split(raw, ',')[k])
    decreases |raw|
  {
    match Find(raw, [','])
    case None =>
    case Some(i) =>
      assert OccursAt(raw, [','], i);
      var rest := raw[i + 1..];
      assert forall j | 0 <= j < |rest| :: rest[j] == raw[i + 1 + j];
      PiecesBlank(rest);
      assert Split(raw, ',') == [raw[..i]] + Split(rest, ',');
  }

  /** A value made only of whitespace and commas, the empty one included, gives no items. */
  lemma RawBlank(env: map<string, string>, name: string, default: string)
    requires SpacesAndCommas(if name in env then env[name] else default)
    ensures GetList(env, name, default) == []
  {
    var raw := if name in env then env[name] else default;
    PiecesBlank(raw);
    BlankGivesNothing(Split(raw, ','));
  }

  /** An unset variable reads its default; a set one its own value, even when empty, and an
      empty value (such as the default of RETIRED_SECRETS) gives no items. */
  lemma GetListSource(env: map<string, string>, name: string, default: string)
    ensures name !in env ==> GetList(env, name, default) == Items(Split(default, ','))
    ensures name in env ==> GetList(env, name, default) == Items(Split(env[name], ','))
    ensures name in env && env[name] == "" ==> GetList(env, name, default) == []
    ensures name !in env && default == "" ==> GetList(env, name, default) == []
  {
    if (name in env && env[name] == "") || (name !in env && default == "") {
      SplitNoComma("");
      assert Strip("") == "";
    }
  }
}
