/** URI template expansion (default/quiche_platform_impl/quiche_url_utils_impl.cc).

    The source replaces "{name}" by the encoded value for one parameter after another,
    in whatever order its hash map yields them, and then erases leftover groups, searching
    from the start of the string each time. The model proves that this equals one
    left-to-right scan of the template. */
module UriTemplate {
  import opened Text

  /** What the call hands back: `None` is `return false`, with both outputs untouched. */
  type Outcome = Option<(string, set<string>)>

  ghost predicate BraceFree(s: string) {
    '{' !in s && '}' !in s
  }

  /** The encoder of the URL library, of which only the absence of braces in its output matters. */
  ghost predicate IsEncoder(encode: string -> string) {
    forall v :: BraceFree(encode(v))
  }

  ghost predicate BraceFreeNames(parameters: map<string, string>) {
    forall n :: n in parameters ==> BraceFree(n)
  }

  /** No group opens inside another one. */
  ghost predicate NonNested(s: string) {
    forall i, j :: 0 <= i < j < |s| && s[i] == '{' && s[j] == '{' ==> exists k :: i < k < j && s[k] == '}'
  }

  // ---------------------------------------------------------------------------------------
  // The library calls
  // ---------------------------------------------------------------------------------------

  function Group(name: string): (g: string) {
    "{" + name + "}"
  }

  /** Left to right, not rescanning what was put in, as absl::StrReplaceAll does for one pair. */
  function ReplaceAll(s: string, name: string, value: string): string {
    var g := Group(name);
    if s == "" then ""
    else if g <= s then value + ReplaceAll(s[|g|..], name, value)
    else [s[0]] + ReplaceAll(s[1..], name, value)
  }

  /** Whether ReplaceAll reports at least one replacement. */
  predicate Occurs(s: string, name: string) {
    s != "" && (Group(name) <= s || Occurs(s[1..], name))
  }

  // ---------------------------------------------------------------------------------------
  // The meaning: one scan
  // ---------------------------------------------------------------------------------------

  /** One left-to-right pass: a defined group becomes its value, an undefined one nothing,
      and the pass fails at an unclosed group or at an undefined group after a stray '}'. */
  function Scan(s: string, values: map<string, string>, stray: bool): Option<string>
    decreases |s|
  {
    if s == "" then Some("")
    else if s[0] == '{' then
      match Find(s, '}')
      case None => None
      case Some(e) =>
        var name := s[1..e];
        if name in values then Prepend(values[name], Scan(s[e + 1..], values, stray))
        else if stray then None
        else Scan(s[e + 1..], values, stray)
    else Prepend([s[0]], Scan(s[1..], values, stray || s[0] == '}'))
  }

  function Prepend(x: string, r: Option<string>): Option<string> {
    if r.None? then None else Some(x + r.value)
  }

  function Encoded(parameters: map<string, string>, encode: string -> string): map<string, string> {
    map n | n in parameters :: encode(parameters[n])
  }

  function OccurringNames(s: string, names: set<string>): set<string> {
    set n | n in names && Occurs(s, n)
  }

  /** The expansion as one scan; the names found are the parameters whose group occurs. */
  function Expansion(s: string, parameters: map<string, string>, encode: string -> string): Outcome {
    match Scan(s, Encoded(parameters, encode), false)
    case None => None
    case Some(t) => Some((t, OccurringNames(s, parameters.Keys)))
  }

  // ---------------------------------------------------------------------------------------
  // What the loops compute, for one order of the parameters
  // ---------------------------------------------------------------------------------------

  /** The text and the names found after the replacements of `order`, front to back. */
  function Replaced(s: string, order: seq<string>, values: map<string, string>): (string, set<string>)
    requires forall n :: n in order ==> n in values
  {
    if order == [] then (s, {})
    else
      var (t, found) := Replaced(s, order[..|order| - 1], values);
      var name := order[|order| - 1];
      (ReplaceAll(t, name, values[name]), if Occurs(t, name) then found + {name} else found)
  }

  function ExpandInOrder(s: string, order: seq<string>, values: map<string, string>): Outcome
    requires forall n :: n in order ==> n in values
  {
    var (t, found) := Replaced(s, order, values);
    match Scan(t, map[], false)
    case None => None
    case Some(r) => Some((r, found))
  }

  function Names(order: seq<string>): set<string> {
    set n | n in order
  }

  /** Each parameter exactly once. */
  ghost predicate IsOrder(order: seq<string>, names: set<string>) {
    && (forall n :: n in order <==> n in names)
    && forall i, j :: 0 <= i < j < |order| ==> order[i] != order[j]
  }

  // ---------------------------------------------------------------------------------------
  // Walking over text without an opening brace
  // ---------------------------------------------------------------------------------------

  lemma {:induction false} ReplaceSkips(x: string, y: string, name: string, value: string)
    requires '{' !in x
    ensures ReplaceAll(x + y, name, value) == x + ReplaceAll(y, name, value)
    ensures Occurs(x + y, name) == Occurs(y, name)
    decreases |x|
  {
    if x == "" {
      assert x + y == y;
    } else {
      var s := x + y;
      ReplaceSkips(x[1..], y, name, value);
      assert s[1..] == x[1..] + y;
      assert s[0] == x[0] != '{';
      assert Group(name)[0] == '{';
      assert ReplaceAll(s, name, value) == [s[0]] + ReplaceAll(s[1..], name, value);
      assert [x[0]] + (x[1..] + ReplaceAll(y, name, value)) == x + ReplaceAll(y, name, value);
    }
  }

  lemma ScanPlain(c: char, rest: string, values: map<string, string>, stray: bool)
    requires c != '{'
    ensures Scan([c] + rest, values, stray) == Prepend([c], Scan(rest, values, stray || c == '}'))
  {
    assert ([c] + rest)[1..] == rest;
  }

  lemma {:induction false} ScanSkips(x: string, y: string, values: map<string, string>, stray: bool)
    requires BraceFree(x)
    ensures Scan(x + y, values, stray) == Prepend(x, Scan(y, values, stray))
    decreases |x|
  {
    var r := Scan(y, values, stray);
    if x == "" {
      assert x + y == y;
      assert r.Some? ==> x + r.value == r.value;
    } else {
      ScanSkips(x[1..], y, values, stray);
      assert x + y == [x[0]] + (x[1..] + y);
      ScanPlain(x[0], x[1..] + y, values, stray);
      assert r.Some? ==> [x[0]] + (x[1..] + r.value) == x + r.value;
    }
  }

  // ---------------------------------------------------------------------------------------
  // A group at the front
  // ---------------------------------------------------------------------------------------

  lemma FindInGroup(name: string, rest: string)
    requires '}' !in name
    ensures Find(Group(name) + rest, '}') == Some(|name| + 1)
    ensures (Group(name) + rest)[1..|name| + 1] == name
    ensures (Group(name) + rest)[|name| + 2..] == rest
  {
    FindAt(Group(name) + rest, '}', |name| + 1);
  }

  /** What the scan does with a group, whatever its name contains besides '}'. */
  lemma ScanGroup(name: string, rest: string, values: map<string, string>, stray: bool)
    requires '}' !in name
    ensures Scan(Group(name) + rest, values, stray)
            == if name in values then Prepend(values[name], Scan(rest, values, stray))
               else if stray then None
               else Scan(rest, values, stray)
  {
    FindInGroup(name, rest);
  }

  lemma ReplaceGroup(name: string, rest: string, value: string)
    ensures ReplaceAll(Group(name) + rest, name, value) == value + ReplaceAll(rest, name, value)
    ensures Occurs(Group(name) + rest, name)
  {
    assert (Group(name) + rest)[|Group(name)|..] == rest;
    assert Group(name) <= Group(name) + rest;
  }

  /** A group of another name is stepped over. */
  lemma ReplaceOtherGroup(other: string, rest: string, name: string, value: string)
    requires BraceFree(other) && BraceFree(name) && other != name
    ensures ReplaceAll(Group(other) + rest, name, value) == Group(other) + ReplaceAll(rest, name, value)
    ensures Occurs(Group(other) + rest, name) == Occurs(rest, name)
  {
    var s, x := Group(other) + rest, other + "}";
    if Group(name) <= s {
      assert s == Group(name) + s[|Group(name)|..];
      FindInGroup(name, s[|Group(name)|..]);
      FindInGroup(other, rest);
    }
    assert s[0] == '{' && s[1..] == x + rest;
    ReplaceSkips(x, rest, name, value);
    assert "{" + (x + ReplaceAll(rest, name, value)) == Group(other) + ReplaceAll(rest, name, value);
  }

  /** A text whose front group is never closed contains no group at all. */
  lemma {:induction false} ReplaceUnclosed(s: string, name: string, value: string)
    requires Find(s, '}') == None
    ensures ReplaceAll(s, name, value) == s && !Occurs(s, name)
    decreases |s|
  {
    if s != "" {
      var g := Group(name);
      assert g[|g| - 1] == '}';
      assert !(g <= s);
      assert Find(s[1..], '}') == None;
      ReplaceUnclosed(s[1..], name, value);
      assert s == [s[0]] + s[1..];
    }
  }

  // ---------------------------------------------------------------------------------------
  // Texts without nesting
  // ---------------------------------------------------------------------------------------

  lemma NonNestedDrop(s: string, k: nat)
    requires NonNested(s) && k <= |s|
    ensures NonNested(s[k..])
  {
    var t := s[k..];
    forall i, j | 0 <= i < j < |t| && t[i] == '{' && t[j] == '{' ensures exists m :: i < m < j && t[m] == '}' {
      assert s[k + i] == '{' && s[k + j] == '{';
      var m :| k + i < m < k + j && s[m] == '}';
      assert t[m - k] == '}';
    }
  }

  lemma NonNestedAppend(x: string, s: string)
    requires NonNested(s)
    requires '{' !in x || (exists n :: '{' !in n && x == Group(n))
    ensures NonNested(x + s)
  {
    var t := x + s;
    assert forall i :: |x| <= i < |t| ==> t[i] == s[i - |x|];
    forall i, j | 0 <= i < j < |t| && t[i] == '{' && t[j] == '{' ensures exists m :: i < m < j && t[m] == '}' {
      if i < |x| {
        assert x[i] == '{';
        var n :| '{' !in n && x == Group(n);
        assert t[|x| - 1] == '}';
        assert forall k :: 0 < k < |x| ==> x[k] != '{';
      } else {
        var m :| i - |x| < m < j - |x| && s[m] == '}';
        assert t[m + |x|] == '}';
      }
    }
  }

  /** How such a text begins: an ordinary character, a whole group, or a brace never closed. */
  datatype Front = Plain(c: char, rest: string) | Whole(name: string, rest: string) | Unclosed

  lemma FrontOf(s: string) returns (f: Front)
    requires NonNested(s) && s != ""
    ensures f.Plain? ==> f.c != '{' && s == [f.c] + f.rest && NonNested(f.rest)
    ensures f.Whole? ==> BraceFree(f.name) && s == Group(f.name) + f.rest && NonNested(f.rest)
    ensures f.Unclosed? ==> s[0] == '{' && Find(s, '}') == None
    ensures !f.Unclosed? ==> |f.rest| < |s|
  {
    if s[0] != '{' {
      NonNestedDrop(s, 1);
      return Plain(s[0], s[1..]);
    }
    match Find(s, '}')
    case None =>
      return Unclosed;
    case Some(e) =>
      NonNestedDrop(s, e + 1);
      assert forall j :: 1 <= j < e ==> s[j] != '{';
      assert s == Group(s[1..e]) + s[e + 1..];
      return Whole(s[1..e], s[e + 1..]);
  }

  // ---------------------------------------------------------------------------------------
  // One replacement step
  // ---------------------------------------------------------------------------------------

  /** Replacing one name moves its definition out of the environment and leaves the scan
      and the absence of nesting as they were. */
  lemma {:induction false} ReplaceStep(s: string, name: string, value: string,
                                       values: map<string, string>, stray: bool)
    requires NonNested(s) && BraceFree(name) && BraceFree(value)
    requires name !in values
    ensures Scan(ReplaceAll(s, name, value), values, stray) == Scan(s, values[name := value], stray)
    ensures NonNested(ReplaceAll(s, name, value))
    decreases |s|
  {
    if s != "" {
      var f := FrontOf(s);
      match f
      case Unclosed =>
        ReplaceUnclosed(s, name, value);
      case Plain(c, rest) =>
        ReplaceStep(rest, name, value, values, stray || c == '}');
        ReplaceSkips([c], rest, name, value);
        ScanPlain(c, rest, values[name := value], stray);
        ScanPlain(c, ReplaceAll(rest, name, value), values, stray);
        NonNestedAppend([c], ReplaceAll(rest, name, value));
      case Whole(n, rest) =>
        ReplaceStep(rest, name, value, values, stray);
        ScanGroup(n, rest, values[name := value], stray);
        var rest' := ReplaceAll(rest, name, value);
        if n == name {
          ReplaceGroup(name, rest, value);
          ScanSkips(value, rest', values, stray);
          NonNestedAppend(value, rest');
        } else {
          ReplaceOtherGroup(n, rest, name, value);
          ScanGroup(n, rest', values, stray);
          NonNestedAppend(Group(n), rest');
        }
    }
  }

  /** It does not change which other names occur either. */
  lemma {:induction false} ReplaceKeepsOthers(s: string, name: string, value: string, other: string)
    requires NonNested(s) && BraceFree(name) && BraceFree(value) && BraceFree(other) && other != name
    ensures Occurs(ReplaceAll(s, name, value), other) == Occurs(s, other)
    decreases |s|
  {
    if s != "" {
      var f := FrontOf(s);
      match f
      case Unclosed =>
        ReplaceUnclosed(s, name, value);
      case Plain(c, rest) =>
        ReplaceKeepsOthers(rest, name, value, other);
        ReplaceSkips([c], rest, name, value);
        ReplaceSkips([c], rest, other, "");
        ReplaceSkips([c], ReplaceAll(rest, name, value), other, "");
      case Whole(n, rest) =>
        ReplaceKeepsOthers(rest, name, value, other);
        var rest' := ReplaceAll(rest, name, value);
        if n == name {
          ReplaceGroup(name, rest, value);
          ReplaceSkips(value, rest', other, "");
          ReplaceOtherGroup(n, rest, other, "");
        } else {
          ReplaceOtherGroup(n, rest, name, value);
          if n == other {
            ReplaceGroup(n, rest, "");
            ReplaceGroup(n, rest', "");
          } else {
            ReplaceOtherGroup(n, rest, other, "");
            ReplaceOtherGroup(n, rest', other, "");
          }
        }
    }
  }

  // ---------------------------------------------------------------------------------------
  // The erase loop
  // ---------------------------------------------------------------------------------------

  /** After a stray '}' nothing may be left to erase. */
  lemma {:induction false} ScanAfterStray(s: string)
    ensures Scan(s, map[], true) == if '{' in s then None else Some(s)
    decreases |s|
  {
    if s != "" {
      ScanAfterStray(s[1..]);
      assert s == [s[0]] + s[1..];
    }
  }

  /** Text before the first '{': a '}' there makes the scan fail if a '{' follows. */
  lemma {:induction false} ScanToOpen(x: string, y: string)
    requires '{' !in x && '}' in x
    ensures Scan(x + y, map[], false) == if '{' in y then None else Some(x + y)
    decreases |x|
  {
    var s := x + y;
    assert s[1..] == x[1..] + y && s == [s[0]] + s[1..];
    if x[0] == '}' {
      ScanAfterStray(s[1..]);
    } else {
      ScanToOpen(x[1..], y);
    }
  }

  lemma {:induction false} TailIsKept(s: string)
    requires '{' !in s
    ensures Scan(s, map[], false) == Some(s)
  {
    assert s + "" == s;
    if '}' in s {
      ScanToOpen(s, "");
    } else {
      ScanSkips(s, "", map[], false);
    }
  }

  lemma EraseGroup(text: string, name: string, rest: string)
    requires BraceFree(text) && '}' !in name
    ensures Scan(text + Group(name) + rest, map[], false) == Scan(text + rest, map[], false)
    ensures Scan(text + Group(name) + rest, map[], false) == Prepend(text, Scan(rest, map[], false))
  {
    assert text + Group(name) + rest == text + (Group(name) + rest);
    ScanSkips(text, Group(name) + rest, map[], false);
    ScanGroup(name, rest, map[], false);
    ScanSkips(text, rest, map[], false);
  }

  /** A round of the loop that fails: nothing closes the first group, or something closes before it. */
  lemma EraseFails(s: string)
    requires Find(s, '{').Some?
    requires Find(s, '}') == None || Find(s, '}').value <= Find(s, '{').value
    ensures Scan(s, map[], false) == None
  {
    var start := Find(s, '{').value;
    var x, y := s[..start], s[start..];
    assert s == x + y && y[0] == '{';
    if Find(s, '}') == None {
      ScanSkips(x, y, map[], false);
    } else {
      assert x[Find(s, '}').value] == '}';
      ScanToOpen(x, y);
    }
  }

  /** A round of the loop that removes a group. */
  lemma EraseRound(s: string) returns (text: string, name: string, rest: string)
    requires Find(s, '{').Some? && Find(s, '}').Some? && Find(s, '{').value < Find(s, '}').value
    ensures text == s[..Find(s, '{').value] && rest == s[Find(s, '}').value + 1..]
    ensures s == text + Group(name) + rest && BraceFree(text) && '}' !in name
    ensures Scan(s, map[], false) == Scan(text + rest, map[], false) == Prepend(text, Scan(rest, map[], false))
  {
    var start, end := Find(s, '{').value, Find(s, '}').value;
    text, name, rest := s[..start], s[start + 1..end], s[end + 1..];
    assert s == text + Group(name) + rest;
    EraseGroup(text, name, rest);
  }

  /** Removes the leftover groups, searching from the start of the string each time. */
  method EraseLeftovers(s: string) returns (r: Option<string>)
    ensures r == Scan(s, map[], false)
  {
    var result := s;
    while true
      invariant Scan(result, map[], false) == Scan(s, map[], false)
      decreases |result|
    {
      var start := Find(result, '{');
      if start.None? {
        TailIsKept(result);
        break;
      }
      var end := Find(result, '}');
      if end.None? || end.value <= start.value {
        EraseFails(result);
        return None;
      }
      var text, name, rest := EraseRound(result);
      result := result[..start.value] + result[end.value + 1..];
    }
    r := Some(result);
  }

  /** ExpandURITemplateImpl. The hash map may yield the parameters in any order whatever;
      `order` is the one this call met. */
  method ExpandURITemplate(uriTemplate: string, parameters: map<string, string>, encode: string -> string)
    returns (outcome: Outcome, ghost order: seq<string>)
    ensures IsOrder(order, parameters.Keys)
    ensures outcome == ExpandInOrder(uriTemplate, order, Encoded(parameters, encode))
    ensures forall ps :: Level1(ps) && uriTemplate == Render(ps) && BraceFreeNames(parameters) && IsEncoder(encode) ==>
              outcome == Some((Meaning(ps, parameters, encode), DefinedVariables(ps, parameters)))
  {
    var found: set<string> := {};
    var result := uriTemplate;
    var pending := parameters.Keys;
    order := [];
    while pending != {}
      invariant pending <= parameters.Keys
      invariant IsOrder(order, parameters.Keys - pending)
      invariant (result, found) == Replaced(uriTemplate, order, Encoded(parameters, encode))
      decreases |pending|
    {
      var name :| name in pending;
      var value := encode(parameters[name]);
      if Occurs(result, name) {
        found := found + {name};
      }
      result := ReplaceAll(result, name, value);
      pending := pending - {name};
      ghost var longer := order + [name];
      assert longer[..|longer| - 1] == order;
      order := longer;
    }
    var target := EraseLeftovers(result);
    outcome := if target.None? then None else Some((target.value, found));
    forall ps | Level1(ps) && uriTemplate == Render(ps) && BraceFreeNames(parameters) && IsEncoder(encode)
      ensures outcome == Some((Meaning(ps, parameters, encode), DefinedVariables(ps, parameters)))
    {
      Level1InAnyOrder(ps, order, parameters, encode);
    }
  }

  lemma LastName(order: seq<string>, values: map<string, string>)
    requires order != [] && forall n :: n in order ==> n in values
    requires forall i, j :: 0 <= i < j < |order| ==> order[i] != order[j]
    ensures var front, name := order[..|order| - 1], order[|order| - 1];
            && name !in front && Names(order) == Names(front) + {name}
            && values - Names(front) == (values - Names(order))[name := values[name]]
  {
    var front, name := order[..|order| - 1], order[|order| - 1];
    assert order == front + [name];
    assert Names(order) == Names(front) + {name};
  }

  /** After any part of the replacements, scanning for the remaining parameters
      means what scanning the template for all of them does. */
  lemma {:induction false} ReplacedMeans(s: string, order: seq<string>, values: map<string, string>)
    requires NonNested(s)
    requires forall n :: n in values ==> BraceFree(n) && BraceFree(values[n])
    requires forall n :: n in order ==> n in values
    requires forall i, j :: 0 <= i < j < |order| ==> order[i] != order[j]
    ensures NonNested(Replaced(s, order, values).0)
    ensures Scan(Replaced(s, order, values).0, values - Names(order), false) == Scan(s, values, false)
    ensures forall n :: n in values && n !in order ==> Occurs(Replaced(s, order, values).0, n) == Occurs(s, n)
    ensures Replaced(s, order, values).1 == OccurringNames(s, Names(order))
  {
    if order == [] {
      assert Names(order) == {};
      assert values - {} == values;
    } else {
      var front, name := order[..|order| - 1], order[|order| - 1];
      ReplacedMeans(s, front, values);
      var t := Replaced(s, front, values).0;
      var left := values - Names(order);
      LastName(order, values);
      ReplaceStep(t, name, values[name], left, false);
      forall n | n in values && n !in order
        ensures Occurs(ReplaceAll(t, name, values[name]), n) == Occurs(s, n)
      {
        ReplaceKeepsOthers(t, name, values[name], n);
      }
      assert Occurs(t, name) == Occurs(s, name);
    }
  }

  /** Whatever the order, the loops compute the single scan: for a template without nested
      groups, parameter names without braces and an encoder that puts out none. */
  lemma {:induction false} AnyOrderExpands(s: string, order: seq<string>,
                                           parameters: map<string, string>, encode: string -> string)
    requires NonNested(s) && BraceFreeNames(parameters) && IsEncoder(encode)
    requires IsOrder(order, parameters.Keys)
    ensures ExpandInOrder(s, order, Encoded(parameters, encode)) == Expansion(s, parameters, encode)
  {
    var values := Encoded(parameters, encode);
    ReplacedMeans(s, order, values);
    assert Names(order) == parameters.Keys == values.Keys;
    assert values - Names(order) == map[];
  }

  // ---------------------------------------------------------------------------------------
  // What the scan means
  // ---------------------------------------------------------------------------------------

  /** A level 1 template (RFC 6570, section 1.2): literals and simple expressions. */
  datatype Piece = Literal(text: string) | Variable(name: string)

  function TextOf(p: Piece): string {
    match p
    case Literal(t) => t
    case Variable(n) => Group(n)
  }

  /** A defined variable stands for its encoded value, an undefined one for nothing. */
  function ValueOf(p: Piece, parameters: map<string, string>, encode: string -> string): string {
    match p
    case Literal(t) => t
    case Variable(n) => if n in parameters then encode(parameters[n]) else ""
  }

  function Render(ps: seq<Piece>): string {
    if ps == [] then "" else TextOf(ps[0]) + Render(ps[1..])
  }

  function Meaning(ps: seq<Piece>, parameters: map<string, string>, encode: string -> string): string {
    if ps == [] then "" else ValueOf(ps[0], parameters, encode) + Meaning(ps[1..], parameters, encode)
  }

  function DefinedVariables(ps: seq<Piece>, parameters: map<string, string>): set<string> {
    set n | n in parameters && Variable(n) in ps
  }

  ghost predicate Level1(ps: seq<Piece>) {
    ps == [] || (BraceFree(if ps[0].Literal? then ps[0].text else ps[0].name) && Level1(ps[1..]))
  }

  /** Every level 1 template expands to the concatenation of its pieces' values
      (RFC 6570, section 3.2.2). */
  lemma {:induction false} Level1Expands(ps: seq<Piece>, parameters: map<string, string>, encode: string -> string)
    requires Level1(ps)
    ensures Scan(Render(ps), Encoded(parameters, encode), false) == Some(Meaning(ps, parameters, encode))
    ensures NonNested(Render(ps))
  {
    if ps != [] {
      var rest, values := Render(ps[1..]), Encoded(parameters, encode);
      Level1Expands(ps[1..], parameters, encode);
      match ps[0]
      case Literal(t) =>
        ScanSkips(t, rest, values, false);
        NonNestedAppend(t, rest);
      case Variable(name) =>
        ScanGroup(name, rest, values, false);
        NonNestedAppend(Group(name), rest);
        assert "" + Meaning(ps[1..], parameters, encode) == Meaning(ps[1..], parameters, encode);
    }
  }

  /** The names that occur in it are those of its variables. */
  lemma {:induction false} Level1Names(ps: seq<Piece>, n: string)
    requires Level1(ps) && BraceFree(n)
    ensures Occurs(Render(ps), n) <==> Variable(n) in ps
  {
    if ps != [] {
      var rest := Render(ps[1..]);
      Level1Names(ps[1..], n);
      assert ps == [ps[0]] + ps[1..];
      match ps[0]
      case Literal(t) => ReplaceSkips(t, rest, n, "");
      case Variable(name) =>
        if n == name {
          ReplaceGroup(name, rest, "");
        } else {
          ReplaceOtherGroup(name, rest, n, "");
        }
    }
  }

  /** So the loops expand every level 1 template to its meaning and report its defined
      variables, in whatever order the parameters come. */
  lemma Level1InAnyOrder(ps: seq<Piece>, order: seq<string>, parameters: map<string, string>, encode: string -> string)
    requires Level1(ps) && BraceFreeNames(parameters) && IsEncoder(encode)
    requires IsOrder(order, parameters.Keys)
    ensures ExpandInOrder(Render(ps), order, Encoded(parameters, encode))
            == Some((Meaning(ps, parameters, encode), DefinedVariables(ps, parameters)))
  {
    Level1Expands(ps, parameters, encode);
    AnyOrderExpands(Render(ps), order, parameters, encode);
    forall n | n in parameters ensures Occurs(Render(ps), n) <==> Variable(n) in ps {
      Level1Names(ps, n);
    }
    assert OccurringNames(Render(ps), parameters.Keys) == DefinedVariables(ps, parameters);
  }

  ghost predicate HasGroupAt(s: string, i: int, name: string) {
    0 <= i <= |s| && Group(name) <= s[i..]
  }

  /** The names reported are those whose group is a substring of the template. */
  lemma {:induction false} OccursIsSubstring(s: string, name: string)
    ensures Occurs(s, name) <==> exists i :: HasGroupAt(s, i, name)
    decreases |s|
  {
    if s != "" {
      OccursIsSubstring(s[1..], name);
      if HasGroupAt(s, 0, name) {
      } else {
        if Occurs(s, name) {
          var i :| HasGroupAt(s[1..], i, name);
          assert HasGroupAt(s, i + 1, name);
        }
        forall i | HasGroupAt(s, i, name) ensures Occurs(s[1..], name) {
          assert HasGroupAt(s[1..], i - 1, name);
        }
      }
    }
  }

  /** A string the erase loop accepts: texts and groups in turn, then a tail without '{'. */
  datatype Erasable = Erasable(groups: seq<(string, string)>, tail: string)

  ghost predicate ValidErasable(e: Erasable) {
    && '{' !in e.tail
    && forall i :: 0 <= i < |e.groups| ==> BraceFree(e.groups[i].0) && '}' !in e.groups[i].1
  }

  function Joined(e: Erasable): string
    decreases |e.groups|
  {
    if e.groups == [] then e.tail
    else e.groups[0].0 + Group(e.groups[0].1) + Joined(e.(groups := e.groups[1..]))
  }

  function Kept(e: Erasable): string
    decreases |e.groups|
  {
    if e.groups == [] then e.tail
    else e.groups[0].0 + Kept(e.(groups := e.groups[1..]))
  }

  lemma {:induction false} ErasableIsErased(e: Erasable)
    requires ValidErasable(e)
    ensures Scan(Joined(e), map[], false) == Some(Kept(e))
    decreases |e.groups|
  {
    if e.groups == [] {
      TailIsKept(e.tail);
    } else {
      var e' := e.(groups := e.groups[1..]);
      var (text, name) := e.groups[0];
      ErasableIsErased(e');
      var s := Group(name) + Joined(e');
      assert Joined(e) == text + s;
      ScanSkips(text, s, map[], false);
      ScanGroup(name, Joined(e'), map[], false);
    }
  }

  lemma AddGroup(e: Erasable, text: string, name: string) returns (e': Erasable)
    requires ValidErasable(e) && BraceFree(text) && '}' !in name
    ensures ValidErasable(e') && Joined(e') == text + Group(name) + Joined(e) && Kept(e') == text + Kept(e)
  {
    e' := e.(groups := [(text, name)] + e.groups);
    assert e'.groups[1..] == e.groups;
    assert e'.(groups := e'.groups[1..]) == e;
  }

  lemma {:induction false} ErasedIsErasable(s: string) returns (e: Erasable)
    requires Scan(s, map[], false).Some?
    ensures ValidErasable(e) && Joined(e) == s && Kept(e) == Scan(s, map[], false).value
    decreases |s|
  {
    if Find(s, '{').None? {
      TailIsKept(s);
      return Erasable([], s);
    }
    if Find(s, '}').None? || Find(s, '}').value <= Find(s, '{').value {
      EraseFails(s);
      assert false;
    }
    var text, name, rest := EraseRound(s);
    var e' := ErasedIsErasable(rest);
    e := AddGroup(e', text, name);
  }

  /** The erase loop succeeds with t exactly on the strings made of brace-free texts and groups
      up to their first '}', followed by a tail without '{', and t is those texts and the tail. */
  lemma {:induction false} EraseSucceedsIff(s: string, t: string)
    ensures Scan(s, map[], false) == Some(t)
            <==> exists e :: ValidErasable(e) && Joined(e) == s && Kept(e) == t
    ensures Scan(s, map[], false) == Some(t) ==> '{' !in t
  {
    if Scan(s, map[], false) == Some(t) {
      var e := ErasedIsErasable(s);
      assert ValidErasable(e) && Joined(e) == s && Kept(e) == t;
      KeptHasNoOpen(e);
    }
    forall e | ValidErasable(e) && Joined(e) == s && Kept(e) == t
      ensures Scan(s, map[], false) == Some(t)
    {
      ErasableIsErased(e);
    }
  }

  lemma {:induction false} KeptHasNoOpen(e: Erasable)
    requires ValidErasable(e)
    ensures '{' !in Kept(e)
    decreases |e.groups|
  {
    if e.groups != [] {
      KeptHasNoOpen(e.(groups := e.groups[1..]));
    }
  }

  /** With nested groups the order does matter: {b} first makes "{ac}", {ac} first finds nothing. */
  lemma NestedGroupsDependOnOrder(values: map<string, string>)
    requires values == map["b" := "c", "ac" := "x"]
    ensures ExpandInOrder("{a{b}}", ["b", "ac"], values) == Some(("x", {"b"} + {"ac"}))
    ensures ExpandInOrder("{a{b}}", ["ac", "b"], values) == Some(("", {} + {"b"}))
  {
    InnerFirst();
    OuterFirst();
    ReplacedTwo("{a{b}}", "b", "ac", values);
    ReplacedTwo("{a{b}}", "ac", "b", values);
    TailIsKept("x");
    ScanGroup("ac", "", map[], false);
    assert Group("ac") + "" == "{ac}";
  }

  lemma ReplacedTwo(s: string, m: string, n: string, values: map<string, string>)
    requires m in values && n in values
    ensures Replaced(s, [m, n], values)
            == var t := ReplaceAll(s, m, values[m]);
               (ReplaceAll(t, n, values[n]),
                (if Occurs(s, m) then {m} else {}) + (if Occurs(t, n) then {n} else {}))
  {
    assert [m, n][..1] == [m] && [m][..0] == [];
    var t := ReplaceAll(s, m, values[m]);
    var found: set<string> := {};
    assert Replaced(s, [], values) == (s, found);
    assert Replaced(s, [m], values) == (t, if Occurs(s, m) then found + {m} else found);
    assert found + {m} == {m};
    assert Replaced(s, [m, n], values).1 == (if Occurs(s, m) then {m} else {}) + (if Occurs(t, n) then {n} else {});
  }

  lemma InnerFirst()
    ensures ReplaceAll("{a{b}}", "b", "c") == "{ac}" && Occurs("{a{b}}", "b")
    ensures ReplaceAll("{ac}", "ac", "x") == "x" && Occurs("{ac}", "ac")
  {
    var s, tail := "{a{b}}", Group("b") + "}";
    assert s[1..] == "a" + tail && s[1] != Group("b")[1];
    ReplaceSkips("a", tail, "b", "c");
    ReplaceGroup("b", "}", "c");
    ReplaceSkips("}", "", "b", "c");
    assert "}" + "" == "}";
    assert ReplaceAll(s, "b", "c") == "{" + ("a" + ("c" + "}"));
    ReplaceGroup("ac", "", "x");
    assert Group("ac") + "" == "{ac}" && "x" + "" == "x";
  }

  lemma OuterFirst()
    ensures ReplaceAll("{a{b}}", "ac", "x") == "{a{b}}" && !Occurs("{a{b}}", "ac")
  {
    var s, tail := "{a{b}}", Group("b") + "}";
    assert s[1..] == "a" + tail && s[2] != Group("ac")[2];
    ReplaceSkips("a", tail, "ac", "x");
    ReplaceOtherGroup("b", "}", "ac", "x");
    ReplaceSkips("}", "", "ac", "x");
    assert "}" + "" == "}";
  }
}
