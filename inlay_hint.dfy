/** The decision rules of the inlay-hint collector (src/Feature/InlayHint.cpp):
    which source ranges are hinted at all, which call arguments get a
    parameter-name hint and how that hint reads, when a method is a simple
    setter, how a function-pointer callee's prototype is found, and how
    clang's 1-based presumed locations become LSP positions.

    Clang's AST is abstracted into plain records: a parameter is its name,
    its reference-ness and its range; an argument is its kind, the identifier
    it spells (empty when it is not a single unqualified name), its text and
    its range. The source manager is a pair of oracles. */
module InlayHint {
  import opened Wrappers
  import opened Text

  // ---------------------------------------------------------------------
  // Locations and positions
  // ---------------------------------------------------------------------

  const U32Modulus: int := 0x1_0000_0000

  /** `unsigned`: line and column numbers are 32-bit and wrap around. */
  type U32 = x: int | 0 <= x < U32Modulus

  /** A raw `SourceLocation`; 0 is the invalid location, and locations are
      ordered by their raw encoding. */
  type Loc = nat

  datatype SourceRange = SourceRange(begin: Loc, end: Loc)
  {
    /** `SourceRange::isValid`: both ends are valid. */
    predicate IsValid() {
      begin != 0 && end != 0
    }

    /** The location lies between the two ends. */
    predicate Covers(x: Loc) {
      begin <= x <= end
    }
  }

  /** `PresumedLoc`: 1-based line and column; both are 0 for an invalid one. */
  datatype Presumed = Presumed(line: U32, column: U32)

  /** What the collector asks the `SourceManager`. */
  datatype SourceManager = SourceManager(presumed: Loc -> Presumed, inMainFile: Loc -> bool)

  /** An LSP `Position`: 0-based line and character (section "Position" of
      the Language Server Protocol specification 3.17). */
  datatype Position = Position(line: U32, character: U32)

  datatype Range = Range(start: Position, end: Position)

  /** `unsigned` subtraction of 1: 0 wraps to the largest value. */
  function Pred32(x: U32): U32 {
    if x == 0 then U32Modulus - 1 else x - 1
  }

  /** `unsigned` addition of 1. */
  function Succ32(x: U32): U32 {
    if x == U32Modulus - 1 then 0 else x + 1
  }

  /** `toLspPosition` on a presumed location. */
  function ToLspPosition(p: Presumed): Position {
    Position(Pred32(p.line), Pred32(p.column))
  }

  /** The inverse: from a 0-based LSP position back to 1-based. */
  function FromLspPosition(q: Position): Presumed {
    Presumed(Succ32(q.line), Succ32(q.character))
  }

  /** The conversion loses nothing, in both directions; on a valid presumed
      location it is exactly one less on both coordinates, and the invalid
      presumed location maps to the largest position. */
  lemma LspPositionRoundTrip(p: Presumed, q: Position)
    ensures FromLspPosition(ToLspPosition(p)) == p
    ensures ToLspPosition(FromLspPosition(q)) == q
    ensures p.line >= 1 && p.column >= 1 ==> ToLspPosition(p) == Position(p.line - 1, p.column - 1)
    ensures ToLspPosition(Presumed(0, 0)) == Position(U32Modulus - 1, U32Modulus - 1)
  {
  }

  /** `toLspRange`: both ends converted on their own. */
  function ToLspRange(sm: SourceManager, r: SourceRange): Range {
    Range(ToLspPosition(sm.presumed(r.begin)), ToLspPosition(sm.presumed(r.end)))
  }

  /** Each end of a converted range gives back the presumed location of the
      matching end of the source range. */
  lemma LspRangeRoundTrip(sm: SourceManager, r: SourceRange)
    ensures FromLspPosition(ToLspRange(sm, r).start) == sm.presumed(r.begin)
    ensures FromLspPosition(ToLspRange(sm, r).end) == sm.presumed(r.end)
  {
    LspPositionRoundTrip(sm.presumed(r.begin), Position(0, 0));
    LspPositionRoundTrip(sm.presumed(r.end), Position(0, 0));
  }

  // ---------------------------------------------------------------------
  // Range filtering
  // ---------------------------------------------------------------------

  /** `needFilter`: no hints for an invalid range, a range with an end outside
      the main file, or a range wholly before or after the request's limit. */
  function NeedFilter(sm: SourceManager, limit: SourceRange, range: SourceRange): bool {
    if !range.IsValid() then true
    else if !sm.inMainFile(range.begin) || !sm.inMainFile(range.end) then true
    else if range.end < limit.begin || range.begin > limit.end then true
    else false
  }

  /** For ranges whose ends are in order, "not filtered" means valid, in the
      main file, and sharing at least one location with the limit. */
  lemma NeedFilterIsOverlap(sm: SourceManager, limit: SourceRange, range: SourceRange)
    requires range.begin <= range.end && limit.begin <= limit.end
    ensures !NeedFilter(sm, limit, range) <==>
              range.IsValid() && sm.inMainFile(range.begin) && sm.inMainFile(range.end)
              && exists x: Loc :: range.Covers(x) && limit.Covers(x)
  {
    if limit.begin <= range.end && range.begin <= limit.end {
      var x: Loc := if range.begin <= limit.begin then limit.begin else range.begin;
      assert range.Covers(x) && limit.Covers(x);
    }
  }

  // ---------------------------------------------------------------------
  // Argument hints
  // ---------------------------------------------------------------------

  /** A `ParmVarDecl`: its name, whether its type is an lvalue reference and
      whether the referred type is const, and its source range. */
  datatype Param = Param(name: string, isLValueReference: bool, referentIsConst: bool, range: SourceRange)

  /** Pack expansions and default arguments always come last in a call. */
  datatype ArgKind = Normal | PackExpansion | DefaultArg

  /** A call argument: `takeExprIdentifier`'s answer is `identifier`, and
      `text` is the source text the argument's range spans. */
  datatype Arg = Arg(kind: ArgKind, identifier: string, text: string, range: SourceRange)

  /** `proto::InlayHintKind`. */
  datatype HintKind = Type | Parameter

  datatype Location = Location(uri: string, range: Range)

  /** A label part: its text and where it links to. The tooltip is always
      the blank plain-text markup. */
  datatype LabelPart = LabelPart(value: string, location: Option<Location>)

  datatype Hint = Hint(position: Position, parts: seq<LabelPart>, kind: HintKind)

  /** `needHintArgument`. */
  predicate NeedHintArgument(param: Param, arg: Arg) {
    && param.name != []
    && !EqualsInsensitive(param.name, arg.identifier)
    && !(Contains(arg.text, "/*") && Contains(arg.text, "*/"))
  }

  /** An argument that is the parameter's own name, in any case, gets no
      hint; nor does a parameter without a name. */
  lemma SameNameNeedsNoHint(param: Param, arg: Arg)
    requires param.name == [] || (|arg.identifier| == |param.name| && forall i :: 0 <= i < |arg.identifier| ==> ToLower(arg.identifier[i]) == ToLower(param.name[i]))
    ensures !NeedHintArgument(param, arg)
  {
  }

  /** An argument whose text holds a `/*...*/` comment gets no hint. */
  lemma CommentedArgumentNeedsNoHint(param: Param, arg: Arg, before: string, comment: string, after: string)
    requires arg.text == before + "/*" + comment + "*/" + after
    ensures !NeedHintArgument(param, arg)
  {
    assert OccursAt(arg.text, "/*", |before|) by {
      assert arg.text[|before|..|before| + 2] == "/*";
    }
    assert OccursAt(arg.text, "*/", |before| + 2 + |comment|) by {
      assert arg.text[|before| + 2 + |comment|..|before| + 2 + |comment| + 2] == "*/";
    }
  }

  /** A named parameter and an argument that is not a single name (a literal,
      a call, an operator expression) whose text does not hold both `/*` and
      `*/`: hinted. */
  lemma PlainArgumentNeedsHint(param: Param, arg: Arg)
    requires param.name != [] && arg.identifier == []
    requires !(Contains(arg.text, "/*") && Contains(arg.text, "*/"))
    ensures NeedHintArgument(param, arg)
  {
    assert !EqualsInsensitive(param.name, arg.identifier);
  }

  /** A text with no '/' holds no comment, so such an argument is hinted. */
  lemma {:induction false} SlashFreeTextHasNoComment(text: string)
    requires forall i :: 0 <= i < |text| ==> text[i] != '/'
    ensures !Contains(text, "/*")
  {
    forall i: nat ensures !OccursAt(text, "/*", i) {
      if i + 2 <= |text| {
        assert text[i..i + 2][0] == text[i] != '/';
      }
    }
  }

  /** `isPassedAsMutableLValueRef`. */
  predicate IsPassedAsMutableLValueRef(param: Param) {
    param.isLValueReference && !param.referentIsConst
  }

  /** The label of a parameter hint: the name, "&" for a mutable lvalue
      reference, then ":". */
  function ParamLabel(param: Param): (text: string)
    ensures |text| == |param.name| + (if IsPassedAsMutableLValueRef(param) then 2 else 1)
    ensures text[..|param.name|] == param.name
    ensures text[|text| - 1] == ':'
    ensures IsPassedAsMutableLValueRef(param) <==> text[|param.name|] == '&'
  {
    param.name + (if IsPassedAsMutableLValueRef(param) then "&" else "") + ":"
  }

  /** The hint for one argument: at the argument's start, labelled with the
      parameter and linked to its declaration. */
  function ArgumentHint(sm: SourceManager, uri: string, param: Param, arg: Arg): Hint {
    Hint(ToLspPosition(sm.presumed(arg.range.begin)),
         [LabelPart(ParamLabel(param), Some(Location(uri, ToLspRange(sm, param.range))))],
         Parameter)
  }

  /** What `collectArgumentHint` appends for the pairs from index `i` on:
      it stops at the end of either list or at the first pack expansion or
      default argument, and skips arguments that need no hint. */
  function ArgumentHintsFrom(sm: SourceManager, uri: string, params: seq<Param>, args: seq<Arg>, i: nat): seq<Hint>
    decreases |params| - i
  {
    if i >= |params| || i >= |args| || args[i].kind != Normal then []
    else
      (if NeedHintArgument(params[i], args[i]) then [ArgumentHint(sm, uri, params[i], args[i])] else [])
      + ArgumentHintsFrom(sm, uri, params, args, i + 1)
  }

  function ArgumentHints(sm: SourceManager, uri: string, params: seq<Param>, args: seq<Arg>): seq<Hint> {
    ArgumentHintsFrom(sm, uri, params, args, 0)
  }

  /** At most one hint per parameter-argument pair from `i` on, each of them
      a `Parameter` hint whose label ends with ':'. */
  lemma {:induction false} ArgumentHintsShape(sm: SourceManager, uri: string, params: seq<Param>, args: seq<Arg>, i: nat)
    requires i <= |params| && i <= |args|
    ensures |ArgumentHintsFrom(sm, uri, params, args, i)| <= Min(|params|, |args|) - i
    ensures forall h :: h in ArgumentHintsFrom(sm, uri, params, args, i) ==>
              h.kind == Parameter && |h.parts| == 1 && |h.parts[0].value| >= 1
              && h.parts[0].value[|h.parts[0].value| - 1] == ':'
    decreases |params| - i
  {
    if i < |params| && i < |args| && args[i].kind == Normal {
      ArgumentHintsShape(sm, uri, params, args, i + 1);
    }
  }

  function Min(a: nat, b: nat): nat {
    if a <= b then a else b
  }

  /** Everything from the first pack expansion or default argument on is
      ignored: the hints are those of the arguments before it. */
  lemma {:induction false} StopsAtFirstTailArgument(sm: SourceManager, uri: string, params: seq<Param>, args: seq<Arg>, k: nat, i: nat)
    requires i <= k < |args| && args[k].kind != Normal
    ensures ArgumentHintsFrom(sm, uri, params, args, i) == ArgumentHintsFrom(sm, uri, params, args[..k], i)
    decreases k - i
  {
    if i < k && i < |params| && args[i].kind == Normal {
      assert args[..k][i] == args[i];
      StopsAtFirstTailArgument(sm, uri, params, args, k, i + 1);
    }
  }

  /** When every argument is normal and needs a hint, there is one hint per
      pair both lists have, and hint `j` is the hint of the `j`-th pair. */
  lemma {:induction false} EveryArgumentHinted(sm: SourceManager, uri: string, params: seq<Param>, args: seq<Arg>, i: nat, j: nat)
    requires i <= j < |params| && j < |args|
    requires forall k :: i <= k < |params| && k < |args| ==> args[k].kind == Normal && NeedHintArgument(params[k], args[k])
    ensures |ArgumentHintsFrom(sm, uri, params, args, i)| == Min(|params|, |args|) - i
    ensures ArgumentHintsFrom(sm, uri, params, args, i)[j - i] == ArgumentHint(sm, uri, params[j], args[j])
    decreases |params| - i
  {
    var rest := ArgumentHintsFrom(sm, uri, params, args, i + 1);
    var all := ArgumentHintsFrom(sm, uri, params, args, i);
    var first := ArgumentHint(sm, uri, params[i], args[i]);
    assert all == [first] + rest;
    if j > i {
      EveryArgumentHinted(sm, uri, params, args, i + 1, j);
      assert all[j - i] == rest[j - (i + 1)];
    } else {
      assert all[0] == first;
      if i + 1 < |params| && i + 1 < |args| {
        EveryArgumentHinted(sm, uri, params, args, i + 1, i + 1);
      } else {
        assert rest == [];
      }
    }
  }

  /** The label of an `auto` declaration's hint: ": " then the type. */
  function AutoDeclLabel(deduced: string): string {
    ": " + deduced
  }

  /** The label of a return-type hint: "-> " then the type. */
  function ReturnTypeLabel(returned: string): string {
    "-> " + returned
  }

  // ---------------------------------------------------------------------
  // The collector
  // ---------------------------------------------------------------------

  /** `InlayHintCollector`: the request's limit, the document's URI, the
      source manager, and the hints collected so far. */
  class InlayHintCollector {
    const sm: SourceManager
    const limit: SourceRange
    const docuri: string
    var result: seq<Hint>

    constructor (sm: SourceManager, limit: SourceRange, docuri: string)
      ensures this.sm == sm && this.limit == limit && this.docuri == docuri
      ensures result == []
    {
      this.sm := sm;
      this.limit := limit;
      this.docuri := docuri;
      result := [];
    }

    /** `collectAutoDeclHint`: one `Type` hint at the end of the identifier,
        linked to the declaration when there is one. */
    method CollectAutoDeclHint(deduced: string, identRange: SourceRange, linkDeclRange: Option<SourceRange>)
      modifies this
      ensures result == old(result) + [Hint(ToLspPosition(sm.presumed(identRange.end)),
                                            [LabelPart(AutoDeclLabel(deduced),
                                                       if linkDeclRange.Some? then Some(Location(docuri, ToLspRange(sm, linkDeclRange.value))) else None)],
                                            Type)]
    {
      var part := LabelPart(": " + deduced, None);
      if linkDeclRange.Some? {
        part := part.(location := Some(Location(docuri, ToLspRange(sm, linkDeclRange.value))));
      }
      var hint := Hint(ToLspPosition(sm.presumed(identRange.end)), [part], Type);
      result := result + [hint];
    }

    /** `collectArgumentHint`: walk the pairs in order; stop at the first
        pack expansion or default argument; skip the arguments that need no
        hint; append one `Parameter` hint for each of the others. */
    method CollectArgumentHint(params: seq<Param>, args: seq<Arg>)
      modifies this
      ensures result == old(result) + ArgumentHints(sm, docuri, params, args)
    {
      var i := 0;
      while i < |params| && i < |args|
        invariant i <= |params| && i <= |args|
        invariant result + ArgumentHintsFrom(sm, docuri, params, args, i)
                  == old(result) + ArgumentHints(sm, docuri, params, args)
        decreases |params| - i
      {
        if args[i].kind == PackExpansion || args[i].kind == DefaultArg {
          assert ArgumentHintsFrom(sm, docuri, params, args, i) == [];
          assert result + [] == result;
          break;
        }
        ghost var later := ArgumentHintsFrom(sm, docuri, params, args, i + 1);
        if !NeedHintArgument(params[i], args[i]) {
          assert ArgumentHintsFrom(sm, docuri, params, args, i) == [] + later;
          i := i + 1;
          continue;
        }
        var hintRef := IsPassedAsMutableLValueRef(params[i]);
        var part := LabelPart(params[i].name + (if hintRef then "&" else "") + ":",
                               Some(Location(docuri, ToLspRange(sm, params[i].range))));
        var hint := Hint(ToLspPosition(sm.presumed(args[i].range.begin)), [part], Parameter);
        assert hint == ArgumentHint(sm, docuri, params[i], args[i]);
        assert ArgumentHintsFrom(sm, docuri, params, args, i) == [hint] + later;
        assert (result + [hint]) + later == result + ([hint] + later);
        result := result + [hint];
        i := i + 1;
      }
      assert ArgumentHintsFrom(sm, docuri, params, args, i) == [];
      assert result + [] == result;
    }

    /** `collectReturnTypeHint`: one hint after the parameter list, linked to
        the declaration. Its kind is `Parameter`, as the code has it. */
    method CollectReturnTypeHint(hintLoc: Loc, returned: string, declRange: SourceRange)
      modifies this
      ensures result == old(result) + [Hint(ToLspPosition(sm.presumed(hintLoc)),
                                            [LabelPart(ReturnTypeLabel(returned), Some(Location(docuri, ToLspRange(sm, declRange))))],
                                            Parameter)]
    {
      var part := LabelPart("-> " + returned, Some(Location(docuri, ToLspRange(sm, declRange))));
      result := result + [Hint(ToLspPosition(sm.presumed(hintLoc)), [part], Parameter)];
    }
  }

  // ---------------------------------------------------------------------
  // Simple setters
  // ---------------------------------------------------------------------

  /** What `isSimpleSetter` decides: one parameter, a name starting with
      "set" in any case, and the rest of the name equal to the parameter's
      name once underscores are dropped and case is ignored. */
  predicate SimpleSetter(name: string, params: seq<Param>) {
    && |params| == 1
    && StartsWithInsensitive(name, "set")
    && EqualsInsensitive(Remove(name[3..], '_'), Remove(params[0].name, '_'))
  }

  /** The copying loops of `isSimpleSetter`: push every character of `s`
      other than '_', in order. */
  method CopyWithoutUnderscores(s: string) returns (r: string)
    ensures r == Remove(s, '_')
  {
    r := "";
    for i := 0 to |s|
      invariant r == Remove(s[..i], '_')
    {
      assert s[..i + 1][..i] == s[..i];
      if s[i] != '_' {
        r := r + [s[i]];
      }
    }
    assert s[..|s|] == s;
  }

  /** `equals_insensitive` as a loop over the characters. */
  method CompareInsensitive(a: string, b: string) returns (equal: bool)
    ensures equal == EqualsInsensitive(a, b)
  {
    equal := |a| == |b|;
    var i := 0;
    while equal && i < |a|
      invariant 0 <= i <= |a|
      invariant equal ==> |a| == |b| && forall j :: 0 <= j < i ==> ToLower(a[j]) == ToLower(b[j])
      invariant !equal ==> !EqualsInsensitive(a, b)
    {
      equal := ToLower(a[i]) == ToLower(b[i]);
      i := i + 1;
    }
  }

  /** `isSimpleSetter`: copy the characters other than '_' of the name after
      "set" and of the parameter's name, then compare them ignoring case. */
  method IsSimpleSetter(name: string, params: seq<Param>) returns (simple: bool)
    ensures simple == SimpleSetter(name, params)
  {
    if |params| != 1 {
      return false;
    }
    if !(3 <= |name| && EqualsInsensitive(name[..3], "set")) {
      return false;
    }
    var fnname := CopyWithoutUnderscores(name[3..]);
    var param := CopyWithoutUnderscores(params[0].name);
    simple := CompareInsensitive(fnname, param);
  }

  /** A setter named after its parameter is simple, whatever the case of
      "set" and of the field part: `setX(x)`, `SETfoo(Foo)`. */
  lemma SetterOfItsOwnField(prefix: string, field: string, param: Param)
    requires EqualsInsensitive(prefix, "set")
    requires EqualsInsensitive(Remove(param.name, '_'), Remove(field, '_'))
    ensures SimpleSetter(prefix + field, [param])
  {
    var name := prefix + field;
    assert name[..3] == prefix;
    assert name[3..] == field;
    EqualsInsensitiveSymmetric(Remove(param.name, '_'), Remove(field, '_'));
  }

  lemma EqualsInsensitiveSymmetric(a: string, b: string)
    requires EqualsInsensitive(a, b)
    ensures EqualsInsensitive(b, a)
  {
  }

  lemma RemoveOther(x: char, c: char)
    requires x != c
    ensures Remove([x], c) == [x]
  {
    assert [x][..0] == [];
  }

  /** The concrete case `setX(x)`. */
  lemma SetXIsSimple(param: Param)
    requires param.name == "x"
    ensures SimpleSetter("setX", [param])
  {
    assert "set" + "X" == "setX";
    RemoveOther('X', '_');
    RemoveOther('x', '_');
    assert EqualsInsensitive("x", "X") by {
      assert ToLower('x') == ToLower('X');
    }
    SetterOfItsOwnField("set", "X", param);
  }

  lemma RemovePadded(field: string)
    ensures Remove("_" + field + "_", '_') == Remove(field, '_')
  {
    var u := "_";
    assert Remove(u, '_') == [] by {
      assert u[..|u| - 1] == [];
    }
    RemoveAppend(u, field, '_');
    RemoveAppend(u + field, u, '_');
  }

  /** Underscores around the field part do not count either: `set_x_(x)`. */
  lemma UnderscoresDoNotCount(prefix: string, field: string, param: Param)
    requires EqualsInsensitive(prefix, "set")
    requires EqualsInsensitive(Remove(param.name, '_'), Remove(field, '_'))
    ensures SimpleSetter(prefix + ("_" + field + "_"), [param])
  {
    RemovePadded(field);
    SetterOfItsOwnField(prefix, "_" + field + "_", param);
  }

  /** A setter whose parameter name adds something, such as
      `setTimeout(timeoutMillis)`, is not simple. */
  lemma LongerParamIsNotSimple(name: string, param: Param)
    requires 3 <= |name| && |Remove(name[3..], '_')| != |Remove(param.name, '_')|
    ensures !SimpleSetter(name, [param])
  {
  }

  // ---------------------------------------------------------------------
  // Calls through function pointers
  // ---------------------------------------------------------------------

  /** The shapes of `TypeLoc` the unwrapping loop distinguishes. */
  datatype TypeLoc =
    | PointerLoc(pointee: TypeLoc)
    | AttributedLoc(modified: TypeLoc)
    | ParenLoc(inner: TypeLoc)
    | FunctionProtoLoc(params: seq<Param>)
    | OtherLoc

  predicate IsWrapper(t: TypeLoc) {
    t.PointerLoc? || t.AttributedLoc? || t.ParenLoc?
  }

  /** What remains once every pointer, attribute and parenthesis layer is
      stripped. */
  function Unwrap(t: TypeLoc): (r: TypeLoc)
    ensures !IsWrapper(r)
  {
    match t
    case PointerLoc(p) => Unwrap(p)
    case AttributedLoc(m) => Unwrap(m)
    case ParenLoc(i) => Unwrap(i)
    case _ => t
  }

  /** Unwrapping twice is unwrapping once, and any number of wrapper layers
      over a type unwrap like the type itself. */
  lemma {:induction false} UnwrapIdempotent(t: TypeLoc)
    ensures Unwrap(Unwrap(t)) == Unwrap(t)
    ensures Unwrap(PointerLoc(ParenLoc(t))) == Unwrap(t)
  {
    var r := Unwrap(t);
    assert !IsWrapper(r);
  }

  /** The unwrap loop and the final check of `detectCallViaFnPointer`; the
      starting `TypeLoc` (from a typedef, or from the declared variable) is
      given, `None` when there is none. The prototype is found exactly when
      what remains after unwrapping is a function prototype. */
  method DetectCallViaFnPointer(start: Option<TypeLoc>) returns (proto: Option<seq<Param>>)
    ensures proto.Some? <==> start.Some? && Unwrap(start.value).FunctionProtoLoc?
    ensures proto.Some? ==> proto.value == Unwrap(start.value).params
  {
    if start.None? {
      return None;
    }
    var target := start.value;
    while true
      invariant Unwrap(target) == Unwrap(start.value)
      decreases target
    {
      if target.PointerLoc? {
        target := target.pointee;
      } else if target.AttributedLoc? {
        target := target.modified;
      } else if target.ParenLoc? {
        target := target.inner;
      } else {
        break;
      }
    }
    if target.FunctionProtoLoc? {
      return Some(target.params);
    }
    return None;
  }
}
