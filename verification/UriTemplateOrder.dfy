/** When the order of the parameters plays no part in the expansion of a URI template
    (default/quiche_platform_impl/quiche_url_utils_impl.cc:27-41): exactly when no closed group
    contains a closed group. */
module UriTemplateOrder {
  import opened Text
  import opened UriTemplate

  ghost predicate BraceFreeValues(values: map<string, string>) {
    forall n :: n in values ==> BraceFree(n) && BraceFree(values[n])
  }

  /** Pieces of text and whole groups with at least one group among them. */
  ghost predicate HasGroup(ps: seq<Piece>) {
    exists i :: 0 <= i < |ps| && ps[i].Variable?
  }

  /** Somewhere a closed group contains closed groups, the innermost ones being whole. */
  ghost predicate NestsClosedGroups(s: string) {
    exists pre, ps, post :: IsNesting(s, pre, ps, post)
  }

  ghost predicate IsNesting(s: string, pre: string, ps: seq<Piece>, post: string) {
    Level1(ps) && HasGroup(ps) && s == pre + Outer(ps, post)
  }

  /** A group around the pieces, and what follows it. */
  function Outer(ps: seq<Piece>, post: string): string {
    "{" + (Render(ps) + ("}" + post))
  }

  // ---------------------------------------------------------------------------------------
  // Texts in which an opening brace before another one is never closed
  // ---------------------------------------------------------------------------------------

  /** Where the group that starts a text ends, if that has no brace inside. */
  function GroupEnd(s: string): (e: Option<nat>)
    requires s != "" && s[0] == '{'
    ensures e.Some? ==> 1 <= e.value < |s| && s[e.value] == '}' && BraceFree(s[1..e.value])
  {
    match Find(s, '}')
    case None => None
    case Some(e) => if '{' in s[1..e] then None else Some(e)
  }

  /** Some '}' closes nothing within the text, with `open` braces open before it. */
  predicate Dips(s: string, open: nat) {
    s != "" &&
    if s[0] == '{' then Dips(s[1..], open + 1)
    else if s[0] == '}' then open == 0 || Dips(s[1..], open - 1)
    else Dips(s[1..], open)
  }

  predicate Tame(s: string) {
    s == "" ||
    if s[0] != '{' then Tame(s[1..])
    else
      match GroupEnd(s)
      case Some(e) => Tame(s[e + 1..])
      case None => !Dips(s[1..], 0) && Tame(s[1..])
  }

  /** All replacements at once. */
  function Substitute(s: string, values: map<string, string>): string {
    if s == "" then ""
    else if s[0] != '{' then [s[0]] + Substitute(s[1..], values)
    else
      match GroupEnd(s)
      case Some(e) =>
        (if s[1..e] in values then values[s[1..e]] else s[..e + 1]) + Substitute(s[e + 1..], values)
      case None => "{" + Substitute(s[1..], values)
  }

  /** How a text begins. */
  datatype Beginning = Ordinary(c: char, rest: string) | Closed(name: string, rest: string) | Unmatched(rest: string)

  lemma BeginningOf(s: string) returns (f: Beginning)
    requires s != ""
    ensures f.Ordinary? ==> f.c != '{' && s == [f.c] + f.rest && (Tame(s) <==> Tame(f.rest))
    ensures f.Closed? ==> BraceFree(f.name) && s == Group(f.name) + f.rest && (Tame(s) <==> Tame(f.rest))
    ensures f.Unmatched? ==> s == "{" + f.rest && GroupEnd(s) == None
                             && (Tame(s) <==> !Dips(f.rest, 0) && Tame(f.rest))
    ensures |f.rest| < |s|
  {
    if s[0] != '{' {
      f := Ordinary(s[0], s[1..]);
    } else if GroupEnd(s).Some? {
      var e := GroupEnd(s).value;
      assert s == Group(s[1..e]) + s[e + 1..];
      f := Closed(s[1..e], s[e + 1..]);
    } else {
      f := Unmatched(s[1..]);
    }
  }

  lemma GroupEnds(name: string, rest: string)
    requires BraceFree(name)
    ensures GroupEnd(Group(name) + rest) == Some(|name| + 1)
  {
    FindInGroup(name, rest);
  }

  lemma TameGroup(name: string, rest: string)
    requires BraceFree(name)
    ensures Tame(Group(name) + rest) <==> Tame(rest)
  {
    GroupEnds(name, rest);
    FindInGroup(name, rest);
  }

  lemma SubstituteGroup(name: string, rest: string, values: map<string, string>)
    requires BraceFree(name)
    ensures Substitute(Group(name) + rest, values)
            == (if name in values then values[name] else Group(name)) + Substitute(rest, values)
  {
    GroupEnds(name, rest);
    FindInGroup(name, rest);
    assert (Group(name) + rest)[..|name| + 2] == Group(name);
  }

  lemma FirstApart(x: string, y: string)
    requires x != ""
    ensures x + y == [x[0]] + (x[1..] + y)
  {
  }

  lemma {:induction false} TextSkips(x: string, y: string, values: map<string, string>)
    requires BraceFree(x)
    ensures Substitute(x + y, values) == x + Substitute(y, values)
    ensures Tame(x + y) <==> Tame(y)
    decreases |x|
  {
    if x == "" {
      assert x + y == y;
    } else {
      TextSkips(x[1..], y, values);
      PlainSkips(x[0], x[1..] + y, values);
      FirstApart(x, y);
      FirstApart(x, Substitute(y, values));
    }
  }

  lemma PlainSkips(c: char, rest: string, values: map<string, string>)
    requires c != '{'
    ensures Substitute([c] + rest, values) == [c] + Substitute(rest, values)
    ensures Tame([c] + rest) <==> Tame(rest)
  {
    assert ([c] + rest)[1..] == rest;
  }

  // ---------------------------------------------------------------------------------------
  // Dips
  // ---------------------------------------------------------------------------------------

  lemma {:induction false} DipsSkips(x: string, y: string, open: nat)
    requires BraceFree(x)
    ensures Dips(x + y, open) <==> Dips(y, open)
    decreases |x|
  {
    if x == "" {
      assert x + y == y;
    } else {
      DipsSkips(x[1..], y, open);
      assert (x + y)[1..] == x[1..] + y;
    }
  }

  lemma DipsGroup(name: string, rest: string, open: nat)
    requires BraceFree(name)
    ensures Dips(Group(name) + rest, open) <==> Dips(rest, open)
  {
    var s, tail := Group(name) + rest, "}" + rest;
    assert s[1..] == name + tail;
    DipsSkips(name, tail, open + 1);
    assert tail[1..] == rest;
  }

  lemma {:induction false} DipsMore(s: string, open: nat)
    requires Dips(s, open + 1)
    ensures Dips(s, open)
    decreases |s|
  {
    if s[0] == '{' {
      DipsMore(s[1..], open + 1);
    } else if s[0] == '}' {
      if open > 0 {
        DipsMore(s[1..], open - 1);
      }
    } else {
      DipsMore(s[1..], open);
    }
  }

  /** Replacing whole groups by text changes nothing about the other braces. */
  lemma {:induction false} ReplaceKeepsDips(s: string, name: string, value: string, open: nat)
    requires BraceFree(name) && BraceFree(value)
    ensures Dips(ReplaceAll(s, name, value), open) <==> Dips(s, open)
    decreases |s|
  {
    var g := Group(name);
    if s == "" {
    } else if g <= s {
      var rest := s[|g|..];
      assert s == g + rest;
      ReplaceKeepsDips(rest, name, value, open);
      DipsGroup(name, rest, open);
      DipsSkips(value, ReplaceAll(rest, name, value), open);
    } else {
      var t' := ReplaceAll(s[1..], name, value);
      assert ([s[0]] + t')[1..] == t';
      var next := if s[0] == '{' then open + 1 else if s[0] == '}' && open > 0 then open - 1 else open;
      ReplaceKeepsDips(s[1..], name, value, next);
    }
  }

  // ---------------------------------------------------------------------------------------
  // Tame texts: every order gives the substitution
  // ---------------------------------------------------------------------------------------

  /** An unmatched brace is stepped over. */
  lemma UnmatchedSkips(rest: string, name: string, value: string)
    requires BraceFree(name) && GroupEnd("{" + rest) == None
    ensures ReplaceAll("{" + rest, name, value) == "{" + ReplaceAll(rest, name, value)
    ensures Occurs("{" + rest, name) == Occurs(rest, name)
  {
    var s := "{" + rest;
    if Group(name) <= s {
      assert s == Group(name) + s[|Group(name)|..];
      GroupEnds(name, s[|Group(name)|..]);
    }
    assert s[1..] == rest;
  }

  lemma StaysUnmatched(rest: string, values: map<string, string>)
    requires !Dips(rest, 0) && Tame(rest)
    ensures GroupEnd("{" + rest) == None && Tame("{" + rest)
    ensures Substitute("{" + rest, values) == "{" + Substitute(rest, values)
  {
    var s := "{" + rest;
    assert s[1..] == rest;
    if GroupEnd(s).Some? {
      var e := GroupEnd(s).value;
      assert rest == s[1..e] + ("}" + s[e + 1..]);
      DipsSkips(s[1..e], "}" + s[e + 1..], 0);
    }
  }

  lemma {:induction false} TameStep(s: string, name: string, value: string, values: map<string, string>)
    requires Tame(s) && BraceFree(name) && BraceFree(value) && name !in values
    ensures Tame(ReplaceAll(s, name, value))
    ensures Substitute(ReplaceAll(s, name, value), values) == Substitute(s, values[name := value])
    decreases |s|
  {
    if s != "" {
      var f := BeginningOf(s);
      TameStep(f.rest, name, value, values);
      var rest' := ReplaceAll(f.rest, name, value);
      match f
      case Ordinary(c, rest) =>
        ReplaceSkips([c], rest, name, value);
        PlainSkips(c, rest, values[name := value]);
        PlainSkips(c, rest', values);
      case Closed(n, rest) =>
        SubstituteGroup(n, rest, values[name := value]);
        if n == name {
          ReplaceGroup(name, rest, value);
          TextSkips(value, rest', values);
        } else {
          ReplaceOtherGroup(n, rest, name, value);
          SubstituteGroup(n, rest', values);
          TameGroup(n, rest');
        }
      case Unmatched(rest) =>
        UnmatchedSkips(rest, name, value);
        ReplaceKeepsDips(rest, name, value, 0);
        StaysUnmatched(rest, values[name := value]);
        StaysUnmatched(rest', values);
    }
  }

  lemma {:induction false} TameKeepsOthers(s: string, name: string, value: string, other: string)
    requires Tame(s) && BraceFree(name) && BraceFree(value) && BraceFree(other) && other != name
    ensures Occurs(ReplaceAll(s, name, value), other) == Occurs(s, other)
    decreases |s|
  {
    if s != "" {
      var f := BeginningOf(s);
      TameKeepsOthers(f.rest, name, value, other);
      var rest' := ReplaceAll(f.rest, name, value);
      match f
      case Ordinary(c, rest) =>
        ReplaceSkips([c], rest, name, value);
        ReplaceSkips([c], rest, other, "");
        ReplaceSkips([c], rest', other, "");
      case Closed(n, rest) =>
        GroupKeepsOthers(n, rest, name, value, other);
      case Unmatched(rest) =>
        UnmatchedSkips(rest, name, value);
        UnmatchedSkips(rest, other, "");
        TameStep(rest, name, value, map[]);
        ReplaceKeepsDips(rest, name, value, 0);
        StaysUnmatched(rest', map[]);
        UnmatchedSkips(rest', other, "");
    }
  }

  lemma GroupKeepsOthers(n: string, rest: string, name: string, value: string, other: string)
    requires BraceFree(n) && BraceFree(name) && BraceFree(value) && BraceFree(other) && other != name
    requires Occurs(ReplaceAll(rest, name, value), other) == Occurs(rest, other)
    ensures Occurs(ReplaceAll(Group(n) + rest, name, value), other) == Occurs(Group(n) + rest, other)
  {
    var rest' := ReplaceAll(rest, name, value);
    if n == name {
      ReplaceGroup(name, rest, value);
      ReplaceSkips(value, rest', other, "");
      ReplaceOtherGroup(n, rest, other, "");
    } else {
      ReplaceOtherGroup(n, rest, name, value);
      if n == other {
        ReplaceGroup(n, rest, "");
        ReplaceGroup(n, rest', "");
      } else {
        ReplaceOtherGroup(n, rest, other, "");
        ReplaceOtherGroup(n, rest', other, "");
      }
    }
  }

  lemma {:induction false} SubstituteNothing(s: string)
    ensures Substitute(s, map[]) == s
    decreases |s|
  {
    if s != "" {
      var f := BeginningOf(s);
      SubstituteNothing(f.rest);
      match f
      case Ordinary(c, rest) => PlainSkips(c, rest, map[]);
      case Closed(name, rest) => SubstituteGroup(name, rest, map[]);
      case Unmatched(rest) => assert s[1..] == rest;
    }
  }

  lemma {:induction false} TameReplaced(s: string, order: seq<string>, values: map<string, string>)
    requires Tame(s) && BraceFreeValues(values)
    requires forall n :: n in order ==> n in values
    requires forall i, j :: 0 <= i < j < |order| ==> order[i] != order[j]
    ensures Tame(Replaced(s, order, values).0)
    ensures Substitute(Replaced(s, order, values).0, values - Names(order)) == Substitute(s, values)
  {
    if order == [] {
      assert Names(order) == {} && values - {} == values;
    } else {
      var front, name := order[..|order| - 1], order[|order| - 1];
      TameReplaced(s, front, values);
      LastName(order, values);
      TameStep(Replaced(s, front, values).0, name, values[name], values - Names(order));
    }
  }

  lemma {:induction false} TameOccurs(s: string, order: seq<string>, values: map<string, string>, n: string)
    requires Tame(s) && BraceFreeValues(values) && BraceFree(n)
    requires forall m :: m in order ==> m in values && m != n
    requires forall i, j :: 0 <= i < j < |order| ==> order[i] != order[j]
    ensures Occurs(Replaced(s, order, values).0, n) == Occurs(s, n)
  {
    if order != [] {
      var front, name := order[..|order| - 1], order[|order| - 1];
      TameReplaced(s, front, values);
      TameOccurs(s, front, values, n);
      TameKeepsOthers(Replaced(s, front, values).0, name, values[name], n);
    }
  }

  lemma {:induction false} TameFound(s: string, order: seq<string>, values: map<string, string>)
    requires Tame(s) && BraceFreeValues(values)
    requires forall n :: n in order ==> n in values
    requires forall i, j :: 0 <= i < j < |order| ==> order[i] != order[j]
    ensures Replaced(s, order, values).1 == OccurringNames(s, Names(order))
  {
    if order != [] {
      var front, name := order[..|order| - 1], order[|order| - 1];
      TameFound(s, front, values);
      LastName(order, values);
      TameOccurs(s, front, values, name);
    }
  }

  /** Whatever the order, the replacements amount to one substitution. */
  lemma TameInAnyOrder(s: string, order: seq<string>, values: map<string, string>)
    requires Tame(s) && BraceFreeValues(values) && IsOrder(order, values.Keys)
    ensures Replaced(s, order, values) == (Substitute(s, values), OccurringNames(s, values.Keys))
  {
    TameReplaced(s, order, values);
    TameFound(s, order, values);
    assert Names(order) == values.Keys && values - Names(order) == map[];
    SubstituteNothing(Replaced(s, order, values).0);
  }

  // ---------------------------------------------------------------------------------------
  // A text that is not tame nests closed groups
  // ---------------------------------------------------------------------------------------

  /** Up to its first unmatched '}' a tame text is made of pieces. */
  lemma {:induction false} PiecesBeforeDip(s: string) returns (ps: seq<Piece>, post: string)
    requires Tame(s) && Dips(s, 0)
    ensures Level1(ps) && s == Render(ps) + ("}" + post)
    decreases |s|
  {
    if s[0] == '}' {
      ps, post := [], s[1..];
    } else {
      var f := BeginningOf(s);
      match f
      case Ordinary(c, rest) =>
        assert s[1..] == rest;
        ps, post := PiecesBeforeDip(rest);
        ps := AddPiece(Literal([c]), ps, "}" + post);
      case Closed(n, rest) =>
        DipsGroup(n, rest, 0);
        ps, post := PiecesBeforeDip(rest);
        ps := AddPiece(Variable(n), ps, "}" + post);
      case Unmatched(rest) =>
        assert s[1..] == rest;
        DipsMore(rest, 0);
        assert false;
    }
  }

  lemma AddPiece(p: Piece, ps: seq<Piece>, tail: string) returns (qs: seq<Piece>)
    requires Level1(ps) && BraceFree(if p.Literal? then p.text else p.name)
    ensures Level1(qs) && TextOf(p) + (Render(ps) + tail) == Render(qs) + tail
  {
    qs := [p] + ps;
    assert qs[1..] == ps;
  }

  lemma {:induction false} TextsAreBraceFree(ps: seq<Piece>)
    requires Level1(ps) && !HasGroup(ps)
    ensures BraceFree(Render(ps))
  {
    if ps != [] {
      assert forall i :: 0 <= i < |ps| - 1 ==> ps[1..][i] == ps[i + 1];
      TextsAreBraceFree(ps[1..]);
      assert ps[0].Literal?;
    }
  }

  lemma NestsPrepend(head: string, s: string)
    requires NestsClosedGroups(s)
    ensures NestsClosedGroups(head + s)
  {
    var pre, ps, post :| IsNesting(s, pre, ps, post);
    assert head + s == (head + pre) + Outer(ps, post);
    assert IsNesting(head + s, head + pre, ps, post);
  }

  lemma UnmatchedNests(rest: string)
    requires GroupEnd("{" + rest) == None && Tame(rest) && Dips(rest, 0)
    ensures NestsClosedGroups("{" + rest)
  {
    var ps, post := PiecesBeforeDip(rest);
    TextsMakeGroup(ps, post);
    assert "{" + rest == "" + Outer(ps, post);
    assert IsNesting("{" + rest, "", ps, post);
  }

  lemma TextsMakeGroup(ps: seq<Piece>, post: string)
    requires Level1(ps)
    ensures !HasGroup(ps) ==> GroupEnd(Outer(ps, post)).Some?
  {
    if !HasGroup(ps) {
      TextsAreBraceFree(ps);
      assert Outer(ps, post) == Group(Render(ps)) + post;
      GroupEnds(Render(ps), post);
    }
  }

  lemma {:induction false} UntamedNests(s: string)
    requires !Tame(s)
    ensures NestsClosedGroups(s)
    decreases |s|
  {
    var f := BeginningOf(s);
    if !Tame(f.rest) {
      UntamedNests(f.rest);
      var head := s[..|s| - |f.rest|];
      assert s == head + f.rest;
      NestsPrepend(head, f.rest);
    } else {
      UnmatchedNests(f.rest);
    }
  }

  // ---------------------------------------------------------------------------------------
  // A text that nests closed groups depends on the order
  // ---------------------------------------------------------------------------------------

  /** No occurrence of a group reaches over an opening brace. */
  lemma {:induction false} ReplaceAtOpen(x: string, y: string, name: string, value: string)
    requires BraceFree(name) && y != "" && y[0] == '{'
    ensures ReplaceAll(x + y, name, value) == ReplaceAll(x, name, value) + ReplaceAll(y, name, value)
    decreases |x|
  {
    var g, s := Group(name), x + y;
    if x == "" {
      assert s == y && "" + ReplaceAll(y, name, value) == ReplaceAll(y, name, value);
    } else if g <= x {
      assert g <= s && s[|g|..] == x[|g|..] + y;
      ReplaceAtOpen(x[|g|..], y, name, value);
      assert value + (ReplaceAll(x[|g|..], name, value) + ReplaceAll(y, name, value))
             == (value + ReplaceAll(x[|g|..], name, value)) + ReplaceAll(y, name, value);
    } else {
      assert !(g <= s) by {
        assert s[|x|] == '{';
        assert forall k :: 1 <= k < |g| ==> g[k] != '{';
        assert (|g| <= |x| && g <= s) ==> g <= x;
      }
      assert s[1..] == x[1..] + y;
      ReplaceAtOpen(x[1..], y, name, value);
      assert [x[0]] + (ReplaceAll(x[1..], name, value) + ReplaceAll(y, name, value))
             == ([x[0]] + ReplaceAll(x[1..], name, value)) + ReplaceAll(y, name, value);
    }
  }

  /** The pieces after replacing some names by one value. */
  function Fill(ps: seq<Piece>, names: set<string>, value: string): seq<Piece> {
    if ps == [] then [] else [FillPiece(ps[0], names, value)] + Fill(ps[1..], names, value)
  }

  function FillPiece(p: Piece, names: set<string>, value: string): Piece {
    if p.Variable? && p.name in names then Literal(value) else p
  }

  function VariableNames(ps: seq<Piece>): set<string> {
    set p | p in ps && p.Variable? :: p.name
  }

  lemma {:induction false} FillKeepsLevel1(ps: seq<Piece>, names: set<string>, value: string)
    requires Level1(ps) && BraceFree(value)
    ensures Level1(Fill(ps, names, value)) && |Fill(ps, names, value)| == |ps|
    ensures forall i :: 0 <= i < |ps| ==>
              Fill(ps, names, value)[i] == FillPiece(ps[i], names, value)
  {
    if ps != [] {
      FillKeepsLevel1(ps[1..], names, value);
      var qs := Fill(ps, names, value);
      assert qs[1..] == Fill(ps[1..], names, value);
    }
  }

  lemma {:induction false} FillTwice(ps: seq<Piece>, names: set<string>, name: string, value: string)
    ensures Fill(Fill(ps, names, value), {name}, value) == Fill(ps, names + {name}, value)
  {
    if ps != [] {
      var qs := Fill(ps, names, value);
      assert qs[1..] == Fill(ps[1..], names, value);
      FillTwice(ps[1..], names, name, value);
    }
  }

  lemma {:induction false} FillNothing(ps: seq<Piece>, names: set<string>, value: string)
    requires names !! VariableNames(ps)
    ensures Fill(ps, names, value) == ps
  {
    if ps != [] {
      assert ps[0] in ps && VariableNames(ps[1..]) <= VariableNames(ps);
      FillNothing(ps[1..], names, value);
    }
  }

  /** A group as a brace and what follows it. */
  lemma GroupTail(name: string, c: char, t: string)
    ensures Group(name) <= [c] + t <==> c == '{' && name + "}" <= t
  {
    var g, s := Group(name), [c] + t;
    assert g == ['{'] + (name + "}");
    assert g[1..] == name + "}" && s[1..] == t;
    assert g <= s ==> g[1..] <= s[1..] && g[0] == s[0];
  }

  lemma CloseAfterText(name: string, t: string, rest: string)
    requires BraceFree(t)
    ensures name + "}" <= t + rest ==> |t| <= |name| && name[|t|..] + "}" <= rest
  {
    var g, s := name + "}", t + rest;
    assert g[|name|] == '}';
    assert |name| < |t| ==> s[|name|] == t[|name|] != '}';
    if |t| <= |name| {
      assert g[|t|..] == name[|t|..] + "}" && s[|t|..] == rest;
      assert g <= s ==> g[|t|..] <= s[|t|..];
    }
  }

  /** Around pieces with a group among them there is no group. */
  lemma {:induction false} NoGroupAround(ps: seq<Piece>, tail: string, name: string)
    requires Level1(ps) && HasGroup(ps) && BraceFree(name)
    ensures !(name + "}" <= Render(ps) + tail)
    decreases |ps|
  {
    var rest := Render(ps[1..]) + tail;
    RenderFirst(ps, tail);
    match ps[0]
    case Variable(n) => NoCloseAtOpen(name, n, rest);
    case Literal(t) =>
      assert HasGroup(ps[1..]) by {
        var i :| 0 <= i < |ps| && ps[i].Variable?;
        assert ps[1..][i - 1] == ps[i];
      }
      CloseAfterText(name, t, rest);
      if |t| <= |name| {
        NoGroupAround(ps[1..], tail, name[|t|..]);
      }
  }

  lemma NoCloseAtOpen(name: string, n: string, rest: string)
    requires BraceFree(name)
    ensures !(name + "}" <= Group(n) + rest)
  {
    var g, s := name + "}", Group(n) + rest;
    assert g[0] != '{' && s[0] == '{';
  }

  lemma RenderFirst(ps: seq<Piece>, tail: string)
    requires ps != []
    ensures Render(ps) + tail == TextOf(ps[0]) + (Render(ps[1..]) + tail)
  {
  }

  lemma ReplaceInPiece(p: Piece, rest: string, name: string, value: string)
    requires BraceFree(if p.Literal? then p.text else p.name) && BraceFree(name)
    ensures ReplaceAll(TextOf(p) + rest, name, value)
            == TextOf(FillPiece(p, {name}, value)) + ReplaceAll(rest, name, value)
  {
    match p
    case Literal(t) => ReplaceSkips(t, rest, name, value);
    case Variable(n) =>
      if n == name {
        ReplaceGroup(name, rest, value);
      } else {
        ReplaceOtherGroup(n, rest, name, value);
      }
  }

  lemma {:induction false} ReplaceInPieces(ps: seq<Piece>, post: string, name: string, value: string)
    requires Level1(ps) && BraceFree(name)
    ensures ReplaceAll(Render(ps) + ("}" + post), name, value)
            == Render(Fill(ps, {name}, value)) + ("}" + ReplaceAll(post, name, value))
    decreases |ps|
  {
    var tail, tail' := "}" + post, "}" + ReplaceAll(post, name, value);
    if ps == [] {
      ReplaceSkips("}", post, name, value);
      assert Render(ps) + tail == tail && "" + tail' == tail';
    } else {
      var rest, rest' := Render(ps[1..]) + tail, Render(Fill(ps[1..], {name}, value)) + tail';
      ReplaceInPieces(ps[1..], post, name, value);
      ReplaceInPiece(ps[0], rest, name, value);
      RenderFirst(ps, tail);
      var qs := Fill(ps, {name}, value);
      assert qs[1..] == Fill(ps[1..], {name}, value);
      RenderFirst(qs, tail');
    }
  }

  lemma ReplaceInOuter(pre: string, ps: seq<Piece>, post: string, name: string, value: string)
    requires Level1(ps) && HasGroup(ps) && BraceFree(name)
    ensures ReplaceAll(pre + Outer(ps, post), name, value)
            == ReplaceAll(pre, name, value) + Outer(Fill(ps, {name}, value), ReplaceAll(post, name, value))
  {
    var s, rest := Outer(ps, post), Render(ps) + ("}" + post);
    ReplaceAtOpen(pre, s, name, value);
    NoGroupAround(ps, "}" + post, name);
    GroupTail(name, '{', rest);
    assert s[1..] == rest;
    ReplaceInPieces(ps, post, name, value);
  }

  // The names inside first.

  /** Text put in for a name is too long to become that name. */
  lemma {:induction false} PrefixSurvives(s: string, name: string, value: string, p: string)
    requires BraceFree(value) && |p| <= |name| < |value|
    ensures p + "}" <= ReplaceAll(s, name, value) ==> p + "}" <= s
    decreases |s|
  {
    var g := Group(name);
    if s != "" {
      if g <= s {
        CloseAfterText(p, value, ReplaceAll(s[|g|..], name, value));
      } else {
        var t' := ReplaceAll(s[1..], name, value);
        assert s == [s[0]] + s[1..];
        if p == "" {
          var r := [s[0]] + t';
          assert p + "}" == "}" && ("}" <= r ==> r[0] == '}');
        } else {
          PrefixSurvives(s[1..], name, value, p[1..]);
          CloseTail(p, s[0], t');
          CloseTail(p, s[0], s[1..]);
        }
      }
    }
  }

  lemma CloseTail(p: string, c: char, t: string)
    requires p != ""
    ensures p + "}" <= [c] + t <==> p[0] == c && p[1..] + "}" <= t
  {
    var g, s := p + "}", [c] + t;
    assert g == [p[0]] + (p[1..] + "}");
    assert g[1..] == p[1..] + "}" && s[1..] == t;
    assert g <= s ==> g[1..] <= s[1..] && g[0] == s[0];
  }

  lemma {:induction false} LongValueLeavesNone(s: string, name: string, value: string)
    requires BraceFree(name) && BraceFree(value) && |name| < |value|
    ensures !Occurs(ReplaceAll(s, name, value), name)
    decreases |s|
  {
    var g := Group(name);
    if s != "" {
      if g <= s {
        LongValueLeavesNone(s[|g|..], name, value);
        ReplaceSkips(value, ReplaceAll(s[|g|..], name, value), name, "");
      } else {
        var t' := ReplaceAll(s[1..], name, value);
        LongValueLeavesNone(s[1..], name, value);
        assert ([s[0]] + t')[1..] == t' && s == [s[0]] + s[1..];
        PrefixSurvives(s[1..], name, value, name);
        GroupTail(name, s[0], t');
        GroupTail(name, s[0], s[1..]);
      }
    }
  }

  // The name around them first.

  lemma {:induction false} OuterStays(pre: string, ps: seq<Piece>, post: string, order: seq<string>,
                                      values: map<string, string>, value: string)
    returns (pre': string, post': string)
    requires Level1(ps) && BraceFree(value)
    requires forall n :: n in order ==> n in values && n in VariableNames(ps) && BraceFree(n) && values[n] == value
    requires forall i, j :: 0 <= i < j < |order| ==> order[i] != order[j]
    ensures Replaced(pre + Outer(ps, post), order, values).0 == pre' + Outer(Fill(ps, Names(order), value), post')
  {
    if order == [] {
      FillNothing(ps, {}, value);
      assert Names(order) == {};
      pre', post' := pre, post;
    } else {
      var front, name := order[..|order| - 1], order[|order| - 1];
      var pre1, post1 := OuterStays(pre, ps, post, front, values, value);
      LastName(order, values);
      var qs := Fill(ps, Names(front), value);
      FillKeepsLevel1(ps, Names(front), value);
      assert HasGroup(qs) by {
        var i :| 0 <= i < |ps| && ps[i] == Variable(name);
        assert qs[i].Variable?;
      }
      ReplaceInOuter(pre1, qs, post1, name, value);
      FillTwice(ps, Names(front), name, value);
      pre', post' := ReplaceAll(pre1, name, value), ReplaceAll(post1, name, value);
    }
  }

  lemma {:induction false} OrderExists(names: set<string>) returns (order: seq<string>)
    ensures IsOrder(order, names)
  {
    if names == {} {
      order := [];
    } else {
      var n :| n in names;
      var front := OrderExists(names - {n});
      order := front + [n];
    }
  }

  lemma {:induction false} ReplacedConcat(s: string, xs: seq<string>, ys: seq<string>, values: map<string, string>)
    requires forall n :: n in xs || n in ys ==> n in values
    ensures forall n :: n in xs + ys ==> n in values
    ensures Replaced(s, xs + ys, values).0 == Replaced(Replaced(s, xs, values).0, ys, values).0
    decreases |ys|
  {
    if ys == [] {
      assert xs + ys == xs;
    } else {
      var all := xs + ys;
      assert all[..|all| - 1] == xs + ys[..|ys| - 1];
      ReplacedConcat(s, xs, ys[..|ys| - 1], values);
    }
  }

  /** The values and the names for two such orders. */
  lemma NestingValues(ps: seq<Piece>)
    returns (values: map<string, string>, inner: seq<string>, name: string, value: string)
    requires Level1(ps) && HasGroup(ps)
    ensures BraceFreeValues(values) && BraceFree(value) && name in values && |name| < |values[name]|
    ensures name == Render(Fill(ps, VariableNames(ps), value)) && name !in inner
    ensures IsOrder(inner, VariableNames(ps)) && values.Keys == VariableNames(ps) + {name}
    ensures forall n :: n in inner ==> values[n] == value
  {
    value := Long(|Render(ps)|);
    var names := VariableNames(ps);
    name := Render(Fill(ps, names, value));
    FilledName(ps, value);
    VariablesAreBraceFree(ps);
    values := (map n | n in names :: value)[name := Long(|name|)];
    inner := OrderExists(names);
    assert values.Keys == names + {name};
  }

  /** Two orders with two results: the names inside first, so that the name they leave around
      is replaced, or that name first, which is not there yet. */
  lemma NestingDependsOnOrder(pre: string, ps: seq<Piece>, post: string)
    returns (values: map<string, string>, first: seq<string>, second: seq<string>)
    requires Level1(ps) && HasGroup(ps)
    ensures BraceFreeValues(values) && IsOrder(first, values.Keys) && IsOrder(second, values.Keys)
    ensures Replaced(pre + Outer(ps, post), first, values).0 != Replaced(pre + Outer(ps, post), second, values).0
  {
    var inner, name, value;
    values, inner, name, value := NestingValues(ps);
    first, second := inner + [name], [name] + inner;
    OneNameMore(inner, VariableNames(ps), name);
    InnerFirst(pre + Outer(ps, post), inner, name, values);
    OuterFirst(pre, ps, post, inner, name, values, value);
  }

  /** A text longer than that. */
  function Long(n: nat): (r: string)
    ensures |r| > n && BraceFree(r)
  {
    seq(n + 1, _ => 'a')
  }

  lemma OneNameMore(order: seq<string>, names: set<string>, name: string)
    requires IsOrder(order, names) && name !in names
    ensures IsOrder(order + [name], names + {name}) && IsOrder([name] + order, names + {name})
  {
  }

  lemma InnerFirst(s: string, inner: seq<string>, name: string, values: map<string, string>)
    requires forall n :: n in inner + [name] ==> n in values
    requires BraceFree(name) && BraceFree(values[name]) && |name| < |values[name]|
    ensures !Occurs(Replaced(s, inner + [name], values).0, name)
  {
    var order := inner + [name];
    assert order[..|order| - 1] == inner;
    LongValueLeavesNone(Replaced(s, inner, values).0, name, values[name]);
  }

  lemma OuterFirst(pre: string, ps: seq<Piece>, post: string, inner: seq<string>, name: string,
                   values: map<string, string>, value: string)
    requires Level1(ps) && HasGroup(ps) && BraceFree(name) && BraceFree(value)
    requires IsOrder(inner, VariableNames(ps)) && name !in inner && name in values && BraceFree(values[name])
    requires forall n :: n in inner ==> n in values && BraceFree(n) && values[n] == value
    requires name == Render(Fill(ps, VariableNames(ps), value))
    ensures forall n :: n in [name] + inner ==> n in values
    ensures Occurs(Replaced(pre + Outer(ps, post), [name] + inner, values).0, name)
  {
    var s := pre + Outer(ps, post);
    assert [name][..0] == [];
    assert Replaced(s, [name], values).0 == ReplaceAll(s, name, values[name]);
    ReplaceInOuter(pre, ps, post, name, values[name]);
    FillNothing(ps, {name}, values[name]);
    var pre1, post1 := ReplaceAll(pre, name, values[name]), ReplaceAll(post, name, values[name]);
    var pre', post' := OuterStays(pre1, ps, post1, inner, values, value);
    ReplacedConcat(s, [name], inner, values);
    assert Names(inner) == VariableNames(ps);
    GroupInside(pre', name, post');
  }

  lemma GroupInside(pre: string, name: string, post: string)
    ensures Occurs(pre + ("{" + (name + ("}" + post))), name)
  {
    var t := pre + ("{" + (name + ("}" + post)));
    assert t[|pre|..] == Group(name) + post;
    assert HasGroupAt(t, |pre|, name);
    OccursIsSubstring(t, name);
  }

  lemma {:induction false} RenderIsLonger(ps: seq<Piece>)
    ensures forall i :: 0 <= i < |ps| ==> |TextOf(ps[i])| <= |Render(ps)|
  {
    if ps != [] {
      RenderIsLonger(ps[1..]);
      assert forall i :: 1 <= i < |ps| ==> ps[i] == ps[1..][i - 1];
    }
  }

  lemma VariablesAreBraceFree(ps: seq<Piece>)
    requires Level1(ps)
    ensures forall n :: n in VariableNames(ps) ==> BraceFree(n) && |n| <= |Render(ps)|
  {
    RenderIsLonger(ps);
    forall n | n in VariableNames(ps) ensures BraceFree(n) && |n| <= |Render(ps)| {
      var k :| 0 <= k < |ps| && ps[k] == Variable(n);
      Level1At(ps, k);
      assert |TextOf(ps[k])| == |n| + 2;
    }
  }

  /** The name that is left around filled pieces is none of theirs. */
  lemma FilledName(ps: seq<Piece>, value: string)
    requires Level1(ps) && HasGroup(ps) && BraceFree(value) && |value| > |Render(ps)|
    ensures var name := Render(Fill(ps, VariableNames(ps), value));
            BraceFree(name) && name !in VariableNames(ps)
  {
    var qs := Fill(ps, VariableNames(ps), value);
    FillKeepsLevel1(ps, VariableNames(ps), value);
    TextsAreBraceFree(qs);
    var i :| 0 <= i < |ps| && ps[i].Variable?;
    assert qs[i] == Literal(value);
    RenderIsLonger(qs);
    VariablesAreBraceFree(ps);
  }

  lemma {:induction false} Level1At(ps: seq<Piece>, k: nat)
    requires Level1(ps) && k < |ps|
    ensures BraceFree(if ps[k].Literal? then ps[k].text else ps[k].name)
  {
    if k > 0 {
      Level1At(ps[1..], k - 1);
    }
  }

  // ---------------------------------------------------------------------------------------
  // The condition
  // ---------------------------------------------------------------------------------------

  /** Any two orders of any parameters replace the same text and find the same names. */
  ghost predicate OrderIsIrrelevant(s: string) {
    forall values: map<string, string>, first, second ::
      BraceFreeValues(values) && IsOrder(first, values.Keys) && IsOrder(second, values.Keys) ==>
        Replaced(s, first, values) == Replaced(s, second, values)
  }

  /** The order of the parameters plays no part in the replacements, for any parameters and any
      encoder that puts out no braces, exactly if no closed group contains a closed group. */
  lemma OrderIsIrrelevantIff(s: string)
    ensures OrderIsIrrelevant(s) <==> !NestsClosedGroups(s)
  {
    if Tame(s) {
      forall values: map<string, string>, first, second
        | BraceFreeValues(values) && IsOrder(first, values.Keys) && IsOrder(second, values.Keys)
        ensures Replaced(s, first, values) == Replaced(s, second, values)
      {
        TameInAnyOrder(s, first, values);
        TameInAnyOrder(s, second, values);
      }
    } else {
      UntamedNests(s);
    }
    if NestsClosedGroups(s) {
      var pre, ps, post :| IsNesting(s, pre, ps, post);
      var values, first, second := NestingDependsOnOrder(pre, ps, post);
    }
  }

  // ---------------------------------------------------------------------------------------
  // After the erasure
  // ---------------------------------------------------------------------------------------

  /** A brace at the end is never closed. */
  lemma {:induction false} UnclosedEndFails(x: string, y: string, stray: bool)
    requires '}' !in y
    ensures Scan(x + ("{" + y), map[], stray) == None
    decreases |x|
  {
    var end := "{" + y;
    var s := x + end;
    if x == "" {
      assert s == end;
    } else if x[0] != '{' {
      assert s == [x[0]] + (x[1..] + end);
      ScanPlain(x[0], x[1..] + end, map[], stray);
      UnclosedEndFails(x[1..], y, stray || x[0] == '}');
    } else if Find(s, '}').Some? {
      var e := Find(s, '}').value;
      assert forall k :: |x| <= k < |s| ==> s[k] == end[k - |x|] && end[k - |x|] in end;
      assert '}' !in end;
      assert s[e + 1..] == x[e + 1..] + end;
      UnclosedEndFails(x[e + 1..], y, stray);
    }
  }

  /** No replacement closes it. */
  lemma {:induction false} UnclosedEndStays(x: string, y: string, order: seq<string>, values: map<string, string>)
    returns (x': string)
    requires '}' !in y && BraceFreeValues(values) && forall n :: n in order ==> n in values
    ensures Replaced(x + ("{" + y), order, values).0 == x' + ("{" + y)
  {
    if order == [] {
      x' := x;
    } else {
      var front, name := order[..|order| - 1], order[|order| - 1];
      var end := "{" + y;
      var x1 := UnclosedEndStays(x, y, front, values);
      ReplaceAtOpen(x1, end, name, values[name]);
      ReplaceUnclosed(end, name, values[name]);
      x' := ReplaceAll(x1, name, values[name]);
    }
  }

  ghost predicate EndsUnclosed(s: string) {
    exists x, y :: '}' !in y && s == x + ("{" + y)
  }

  ghost predicate OutcomeIsIrrelevant(s: string) {
    forall values: map<string, string>, first, second ::
      BraceFreeValues(values) && IsOrder(first, values.Keys) && IsOrder(second, values.Keys) ==>
        ExpandInOrder(s, first, values) == ExpandInOrder(s, second, values)
  }

  /** What the caller gets is the same for all orders if the replacements are, and also for a
      template that ends in an unclosed group, which no order expands. */
  lemma OutcomeIsIrrelevantIf(s: string)
    requires !NestsClosedGroups(s) || EndsUnclosed(s)
    ensures OutcomeIsIrrelevant(s)
    ensures EndsUnclosed(s) ==> forall values: map<string, string>, order ::
              BraceFreeValues(values) && IsOrder(order, values.Keys) ==> ExpandInOrder(s, order, values) == None
  {
    if EndsUnclosed(s) {
      var x, y :| '}' !in y && s == x + ("{" + y);
      forall values: map<string, string>, order | BraceFreeValues(values) && IsOrder(order, values.Keys)
        ensures ExpandInOrder(s, order, values) == None
      {
        var x' := UnclosedEndStays(x, y, order, values);
        UnclosedEndFails(x', y, false);
      }
    } else {
      OrderIsIrrelevantIff(s);
    }
  }
}
