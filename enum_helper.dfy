/** The enum helpers of include/Support/Enum.h: recovering an enumerator's
    name from the compiler's signature text, the name table, the plain
    `Enum` wrapper (a value with an "invalid" sentinel), the bitmask `Enum`
    (a set of kinds packed in a byte) and its JSON `Serde`.

    Compile-time evaluation is modelled by functions: a name the compiler
    spells for the enum value `v` is the oracle `spelling(v)` (the result of
    `enum_name<v>()`), and whatever the compiler would reject (a `substr` out
    of range, a template recursion that never ends) is `None`. The underlying
    type is the default `uint8_t`. */
module EnumHelper {
  import opened Wrappers
  import opened Text

  /** `std::size_t` arithmetic wraps modulo 2^64. */
  const SizeModulus: int := 0x1_0000_0000_0000_0000
  /** `std::string_view::npos`. */
  const Npos: nat := 0xFFFF_FFFF_FFFF_FFFF

  function SizeAdd(a: nat, b: nat): (r: nat)
    requires a < SizeModulus && b < SizeModulus
    ensures r < SizeModulus
    ensures r == (a + b) % SizeModulus
  {
    if a + b < SizeModulus then a + b else a + b - SizeModulus
  }

  function SizeSub(a: nat, b: nat): (r: nat)
    requires a < SizeModulus && b < SizeModulus
    ensures r < SizeModulus
    ensures r == (a - b) % SizeModulus
  {
    if a >= b then a - b else a - b + SizeModulus
  }

  /** `string_view::substr(pos, count)`: out of range (a compile error in a
      constant evaluation) when `pos` is past the end; the count is clipped to
      what remains. */
  function Substr(s: string, pos: nat, count: nat): Option<string> {
    if pos > |s| then None
    else if count <= |s| - pos then Some(s[pos..pos + count])
    else Some(s[pos..])
  }

  // ---------------------------------------------------------------------
  // enum_name<value>(): the enumerator's name from the function signature
  // ---------------------------------------------------------------------

  /** GCC and Clang spell the template argument after "= " and close the
      signature with "]": keep the text between them. A missing '=' makes
      `find` return npos, and npos + 2 wraps to 1. */
  function SignatureWindow(signature: string): Option<string>
    requires |signature| < Npos
  {
    var start := SizeAdd(match Find(signature, '=') case Some(i) => i case None => Npos, 2);
    var end := SizeSub(|signature|, 1);
    Substr(signature, start, SizeSub(end, start))
  }

  /** Keep what follows the last "::", or everything when there is none. */
  function StripQualifier(name: string): (r: string)
    ensures !Contains(r, "::")
  {
    match RFind(name, "::")
    case None => name
    case Some(i) =>
      assert !Contains(name[i + 2..], "::") by {
        if Contains(name[i + 2..], "::") {
          var j: nat :| j <= |name[i + 2..]| && OccursAt(name[i + 2..], "::", j);
          OccursInSuffix(name, i + 2, j);
        }
      }
      name[i + 2..]
  }

  lemma OccursInSuffix(s: string, k: nat, j: nat)
    requires k <= |s| && OccursAt(s[k..], "::", j)
    ensures OccursAt(s, "::", k + j)
  {
    assert s[k..][j..j + 2] == s[k + j..k + j + 2];
  }

  /** `enum_name<value>()` with GCC or Clang. A string view is always shorter
      than npos. The name holds no "::"; there is no name exactly when the
      signature is empty or its first '=' is its last character. */
  function ExtractEnumName(signature: string): (r: Option<string>)
    requires |signature| < Npos
    ensures r.None? <==> signature == [] || Find(signature, '=') == Some(|signature| - 1)
    ensures r.Some? ==> !Contains(r.value, "::")
  {
    match SignatureWindow(signature)
    case None => None
    case Some(window) => Some(StripQualifier(window))
  }

  /** The window of a signature `pre = body]` is `body`. */
  lemma WindowOfSignature(pre: string, body: string)
    requires '=' !in pre
    requires |pre + "= " + body + "]"| < Npos
    ensures SignatureWindow(pre + "= " + body + "]") == Some(body)
  {
    var s := pre + "= " + body + "]";
    assert s[|pre|] == '=';
    var f := Find(s, '=');
    assert f == Some(|pre|);
    assert SizeAdd(|pre|, 2) == |pre| + 2;
    assert SizeSub(|s|, 1) == |s| - 1;
    assert SizeSub(|s| - 1, |pre| + 2) == |body|;
    assert s[|pre| + 2..|pre| + 2 + |body|] == body;
  }

  /** An identifier after a qualifier: the qualifier goes. */
  lemma StripQualifiedName(qualifier: string, id: string)
    requires ':' !in id
    ensures StripQualifier(qualifier + "::" + id) == id
  {
    var s := qualifier + "::" + id;
    assert OccursAt(s, "::", |qualifier|);
    forall j: nat | |qualifier| < j
      ensures !OccursAt(s, "::", j)
    {
      if j + 2 <= |s| {
        assert s[j + 1] == id[j - 1 - |qualifier|] != ':';
        assert s[j..j + 2][1] != ':';
      }
    }
    assert s[|qualifier| + 2..] == id;
  }

  /** The Clang form `auto enum_name() [value = ns::Kind::Name]` and the GCC
      form `... [with auto value = ns::Kind::Name]` both give `Name`. */
  lemma PrettyFunctionName(pre: string, qualifier: string, id: string)
    requires '=' !in pre && ':' !in id
    requires |pre + "= " + (qualifier + "::" + id) + "]"| < Npos
    ensures ExtractEnumName(pre + "= " + (qualifier + "::" + id) + "]") == Some(id)
  {
    WindowOfSignature(pre, qualifier + "::" + id);
    StripQualifiedName(qualifier, id);
  }

  // ---------------------------------------------------------------------
  // enum_max and the name table
  // ---------------------------------------------------------------------

  /** The number of values of the underlying `uint8_t`. */
  const UnderlyingValues: nat := 256

  /** `enum_max<E, N>()`: the first `N` from `n` on whose value, the cast of
      `N` to the `uint8_t` underlying type, is spelled with a ')' (the
      compiler spells a value with no enumerator as a cast, such as
      `(Kind)3`). Past 255 the cast wraps around to 0, so the answer can be
      256 or more. Only when no underlying value at all is spelled with a ')'
      does the recursion never end, and the program is rejected: `None`. */
  function EnumMax(spelling: nat -> string, n: nat): (r: Option<nat>)
    ensures r.Some? ==> n <= r.value < n + UnderlyingValues && ')' in spelling(r.value % UnderlyingValues)
    ensures r.Some? ==> forall v :: n <= v < r.value ==> ')' !in spelling(v % UnderlyingValues)
    ensures r.None? ==> forall w :: 0 <= w < UnderlyingValues ==> ')' !in spelling(w)
  {
    var r := EnumMaxFrom(spelling, n, 0);
    if r.None? then
      assert forall w :: 0 <= w < UnderlyingValues ==> ')' !in spelling(w) by {
        forall w | 0 <= w < UnderlyingValues
          ensures ')' !in spelling(w)
        {
          var v := WrappedWitness(n, w);
          assert ')' !in spelling(v % UnderlyingValues);
        }
      }
      r
    else r
  }

  /** The search of `enum_max` from `n + k` on, up to one full turn of the
      underlying values. */
  function EnumMaxFrom(spelling: nat -> string, n: nat, k: nat): (r: Option<nat>)
    requires k <= UnderlyingValues
    ensures r.Some? ==> n + k <= r.value < n + UnderlyingValues && ')' in spelling(r.value % UnderlyingValues)
    ensures r.Some? ==> forall v :: n + k <= v < r.value ==> ')' !in spelling(v % UnderlyingValues)
    ensures r.None? ==> forall v :: n + k <= v < n + UnderlyingValues ==> ')' !in spelling(v % UnderlyingValues)
    decreases UnderlyingValues - k
  {
    if k == UnderlyingValues then None
    else if ')' !in spelling((n + k) % UnderlyingValues) then EnumMaxFrom(spelling, n, k + 1)
    else Some(n + k)
  }

  /** Every underlying value `w` is the cast of some `N` within one turn from `n`. */
  lemma WrappedWitness(n: nat, w: nat) returns (v: nat)
    requires w < UnderlyingValues
    ensures n <= v < n + UnderlyingValues && v % UnderlyingValues == w
  {
    var base := n - n % UnderlyingValues;
    assert base == (n / UnderlyingValues) * UnderlyingValues;
    v := if w >= n % UnderlyingValues then base + w else base + UnderlyingValues + w;
    assert v == (n / UnderlyingValues + (if w >= n % UnderlyingValues then 0 else 1)) * UnderlyingValues + w;
  }

  /** An enum whose enumerators run from `n` to 255, with no enumerator 0:
      the cast of 256 wraps to 0, which is spelled as a cast, so `enum_max`
      gives 256 and the program is accepted. */
  lemma EnumMaxWrapsToZero(spelling: nat -> string, n: nat)
    requires 0 < n < UnderlyingValues
    requires forall v :: n <= v < UnderlyingValues ==> ')' !in spelling(v)
    requires ')' in spelling(0)
    ensures EnumMax(spelling, n) == Some(UnderlyingValues)
  {
    var r := EnumMax(spelling, n);
    assert UnderlyingValues % UnderlyingValues == 0;
  }

  /** `enum_table<E, count>::table`: the names of the values 0 .. count-1. */
  function EnumTable(spelling: nat -> string, count: nat): seq<string> {
    seq(count, i requires 0 <= i => spelling(i))
  }

  /** `enum_name<E, begin, end>(value)` as written: `table[value - begin]` on a
      table that starts at value 0. An index past the table is undefined
      behaviour: `None`. */
  function EnumNameAsWritten(spelling: nat -> string, begin: nat, end: nat, value: nat): Option<string>
    requires begin <= end < SizeModulus && value < SizeModulus
  {
    var table := EnumTable(spelling, end - begin);
    var index := SizeSub(value, begin);
    if index < |table| then Some(table[index]) else None
  }

  /** The table as written holds the name of `value - begin` at the index of
      `value`, which is the name of `value` only when `begin` is 0. */
  lemma AsWrittenShiftsByBegin(spelling: nat -> string, begin: nat, end: nat, value: nat)
    requires begin <= value < end < SizeModulus
    ensures EnumNameAsWritten(spelling, begin, end, value) == Some(spelling(value - begin))
    ensures begin == 0 ==> EnumNameAsWritten(spelling, begin, end, value) == Some(spelling(value))
  {
  }

  /** A concrete enum whose enumerators start at 1: the value 1 is named by
      the spelling of the value 0. */
  lemma AsWrittenMisnamesWhenBeginIsNotZero()
    ensures
      var spelling := (v: nat) => if v == 1 then "First" else if v == 2 then "Second" else "(Kind)" ;
      EnumNameAsWritten(spelling, 1, 3, 1) == Some("(Kind)")
  {
    var spelling := (v: nat) => if v == 1 then "First" else if v == 2 then "Second" else "(Kind)" ;
    AsWrittenShiftsByBegin(spelling, 1, 3, 1);
  }

  /** The table of the values begin .. end-1, indexed by `value - begin`. */
  function EnumName(spelling: nat -> string, begin: nat, end: nat, value: nat): (r: Option<string>)
    requires begin <= end < SizeModulus && value < SizeModulus
    ensures r.Some? <==> begin <= value < end
  {
    var table := seq(end - begin, i requires 0 <= i => spelling(begin + i));
    var index := SizeSub(value, begin);
    if index < |table| then Some(table[index]) else None
  }

  /** Every value of the range is named by its own spelling. */
  lemma EnumNameIsSpelling(spelling: nat -> string, begin: nat, end: nat, value: nat)
    requires begin <= value < end < SizeModulus
    ensures EnumName(spelling, begin, end, value) == Some(spelling(value))
  {
  }

  /** What `Derived` declares: the names, and the optional `FirstEnum`,
      `LastEnum` and `InvalidEnum`. */
  datatype EnumInfo = EnumInfo(spelling: nat -> string, first: Option<nat>, last: Option<nat>, invalid: Option<bv8>)
  {
    /** The bitmask's `begin()`, a `std::size_t`: `FirstEnum`, or 0. */
    function Begin(): nat {
      first.GetOr(0)
    }

    /** The bitmask's `end()`, a `std::size_t`: `LastEnum`, or what `enum_max`
        gives from `begin()` on. */
    function End(): Option<nat> {
      if last.Some? then last else EnumMax(spelling, Begin())
    }

    /** The declarations the bitmask template accepts. */
    predicate WellFormed() {
      End().Some? && Begin() <= End().value < SizeModulus
    }

    /** The plain enum's `begin()`: the same value narrowed to the `uint8_t`
        underlying type. */
    function PlainBegin(): nat {
      Begin() % UnderlyingValues
    }

    /** The plain enum's `end()`: the same value narrowed to `uint8_t`, so an
        `enum_max` of 256 becomes 0. */
    function PlainEnd(): Option<nat> {
      if End().Some? then Some(End().value % UnderlyingValues) else None
    }

    /** The declarations the plain template accepts: with `end()` below
        `begin()`, the table size `end() - begin()` wraps to nearly 2^64 and
        the table cannot be built. */
    predicate PlainWellFormed() {
      PlainEnd().Some? && PlainBegin() <= PlainEnd().value
    }

    /** The plain enum's name of `value`, through the corrected table over
        the narrowed bounds. */
    function PlainNameOf(value: nat): (r: Option<string>)
      requires PlainWellFormed() && value < UnderlyingValues
      ensures r.Some? <==> PlainBegin() <= value < PlainEnd().value
      ensures r.Some? ==> r.value == spelling(value)
    {
      if PlainBegin() <= value < PlainEnd().value then
        EnumNameIsSpelling(spelling, PlainBegin(), PlainEnd().value, value);
        EnumName(spelling, PlainBegin(), PlainEnd().value, value)
      else EnumName(spelling, PlainBegin(), PlainEnd().value, value)
    }

    /** The bitmask's name of `value`, through the corrected table. */
    function NameOf(value: nat): (r: Option<string>)
      requires WellFormed() && value < SizeModulus
      ensures r.Some? <==> Begin() <= value < End().value
      ensures r.Some? ==> r.value == spelling(value)
    {
      if Begin() <= value < End().value then
        EnumNameIsSpelling(spelling, Begin(), End().value, value);
        EnumName(spelling, Begin(), End().value, value)
      else EnumName(spelling, Begin(), End().value, value)
    }
  }

  /** For an enum whose values start at 0 (such as `ErrorKind`) the corrected
      table and the table as written give every value the same name. */
  lemma NameOfAgreesWhenBeginIsZero(info: EnumInfo, value: nat)
    requires info.WellFormed() && info.Begin() == 0 && value < SizeModulus
    ensures info.NameOf(value) == EnumNameAsWritten(info.spelling, 0, info.End().value, value)
  {
    if value < info.End().value {
      AsWrittenShiftsByBegin(info.spelling, 0, info.End().value, value);
    }
  }

  /** When neither bound reaches 256 the narrowing changes nothing: the plain
      enum is accepted and names every value as the `std::size_t` bounds do. */
  lemma PlainNameOfAgrees(info: EnumInfo, value: nat)
    requires info.WellFormed() && info.Begin() < UnderlyingValues && info.End().value < UnderlyingValues
    requires value < UnderlyingValues
    ensures info.PlainWellFormed()
    ensures info.PlainNameOf(value) == info.NameOf(value)
  {
    assert info.PlainBegin() == info.Begin();
    assert info.PlainEnd() == info.End();
  }

  /** The enum of `EnumMaxWrapsToZero` as a plain enum: `end()` narrows 256
      to 0, below `begin()`, so `name()` does not compile. */
  lemma PlainWrapIsRejected(spelling: nat -> string, n: nat)
    requires 0 < n < UnderlyingValues
    requires forall v :: n <= v < UnderlyingValues ==> ')' !in spelling(v)
    requires ')' in spelling(0)
    ensures !EnumInfo(spelling, Some(n), None, None).PlainWellFormed()
  {
    var info := EnumInfo(spelling, Some(n), None, None);
    EnumMaxWrapsToZero(spelling, n);
    assert info.End() == Some(UnderlyingValues);
    assert info.PlainEnd() == Some(0);
  }

  /** When `end()` comes from `enum_max`, every value of the range is named by
      a declared enumerator: its name holds no ')'. */
  lemma DerivedEndNamesDeclared(info: EnumInfo, value: nat)
    requires info.last.None? && info.WellFormed()
    requires info.Begin() <= value < info.End().value && value < UnderlyingValues
    ensures info.NameOf(value).Some? && ')' !in info.NameOf(value).value
  {
    assert value % UnderlyingValues == value;
  }

  // ---------------------------------------------------------------------
  // The plain Enum: a value with an invalid sentinel
  // ---------------------------------------------------------------------

  /** `Enum<Derived, false>`: copies and `==` are by value. */
  datatype PlainEnum = PlainEnum(value: bv8)
  {
    /** `name()`: the name of the enumerator this value holds. */
    function Name(info: EnumInfo): Option<string>
      requires info.PlainWellFormed()
    {
      info.PlainNameOf(value as nat)
    }

    /** `operator bool`: holds unless the value is `InvalidEnum`, which the
        derived class must declare. */
    predicate ToBool(info: EnumInfo)
      requires info.invalid.Some?
    {
      value != info.invalid.value
    }
  }

  /** An enum whose only false value is its invalid sentinel, and whose
      in-range values carry their own names. */
  lemma PlainEnumNameAndTruth(info: EnumInfo, e: PlainEnum)
    requires info.PlainWellFormed() && info.invalid.Some?
    ensures e.ToBool(info) <==> e != PlainEnum(info.invalid.value)
    ensures info.PlainBegin() <= e.value as nat < info.PlainEnd().value ==> e.Name(info) == Some(info.spelling(e.value as nat))
    ensures !(info.PlainBegin() <= e.value as nat < info.PlainEnd().value) ==> e.Name(info).None?
  {
  }

  // ---------------------------------------------------------------------
  // The bitmask Enum
  // ---------------------------------------------------------------------

  /** A kind of a bitmask enum: `sizeof(uint8_t) * 8 >= end()` keeps every
      kind below 8. */
  type Kind = k: nat | k < 8

  /** `1 << underlying_value(kind)`. */
  function Bit(k: Kind): bv8 {
    (1 as bv8) << k
  }

  /** `m_Value & (1 << i)` converted to `bool`. */
  predicate HasBit(v: bv8, k: Kind) {
    v & Bit(k) != 0
  }

  /** Two masks with the same bits are the same mask. */
  lemma BitsDetermineMask(a: bv8, b: bv8)
    requires forall k: Kind :: HasBit(a, k) <==> HasBit(b, k)
    ensures a == b
  {
    assert HasBit(a, 0) <==> HasBit(b, 0);
    assert HasBit(a, 1) <==> HasBit(b, 1);
    assert HasBit(a, 2) <==> HasBit(b, 2);
    assert HasBit(a, 3) <==> HasBit(b, 3);
    assert HasBit(a, 4) <==> HasBit(b, 4);
    assert HasBit(a, 5) <==> HasBit(b, 5);
    assert HasBit(a, 6) <==> HasBit(b, 6);
    assert HasBit(a, 7) <==> HasBit(b, 7);
  }

  /** `operator|` and `|=`: bit `k` is set, every other bit is unchanged. */
  function SetBit(v: bv8, k: Kind): (r: bv8)
    ensures HasBit(r, k)
    ensures forall i: Kind :: i != k ==> (HasBit(r, i) <==> HasBit(v, i))
  {
    v | Bit(k)
  }

  /** `operator&` and `&=`: bit `k` alone survives, if it was set. */
  function KeepBit(v: bv8, k: Kind): (r: bv8)
    ensures r == (if HasBit(v, k) then Bit(k) else 0)
    ensures forall i: Kind :: HasBit(r, i) <==> i == k && HasBit(v, k)
  {
    v & Bit(k)
  }

  /** The fold `((1 << kinds) | ...)`: exactly the bits of the given kinds. */
  function KindsMask(kinds: seq<Kind>): (r: bv8)
    ensures forall k: Kind :: HasBit(r, k) <==> k in kinds
  {
    if kinds == [] then 0
    else SetBit(KindsMask(kinds[..|kinds| - 1]), kinds[|kinds| - 1])
  }

  /** `s[0] + sep + s[1] + ...`. */
  function Join(parts: seq<string>, sep: string): string {
    if parts == [] then ""
    else if |parts| == 1 then parts[0]
    else Join(parts[..|parts| - 1], sep) + sep + parts[|parts| - 1]
  }

  /** Every set bit of `v` is a kind with a name. */
  predicate Nameable(info: EnumInfo, v: bv8) {
    info.WellFormed() && forall k: Kind :: HasBit(v, k) ==> info.Begin() <= k < info.End().value
  }

  /** The names of the set bits below `n`, in ascending bit order. */
  function SetNames(info: EnumInfo, v: bv8, n: nat): (names: seq<string>)
    requires Nameable(info, v) && n <= 8
    ensures |names| <= n
  {
    if n == 0 then []
    else
      var k: Kind := n - 1;
      SetNames(info, v, n - 1) + (if HasBit(v, k) then [info.NameOf(k).value] else [])
  }

  /** What bitmask `name()` promises: the names of the set bits, lowest bit
      first, separated by " | ". */
  function MaskName(info: EnumInfo, v: bv8): string
    requires Nameable(info, v)
  {
    Join(SetNames(info, v, 8), " | ")
  }

  /** A mask with no bit set has no name at all. */
  lemma {:induction false} NoBitsNoNames(info: EnumInfo, n: nat)
    requires Nameable(info, 0) && n <= 8
    ensures SetNames(info, 0, n) == []
  {
    if n > 0 {
      NoBitsNoNames(info, n - 1);
      var k: Kind := n - 1;
      assert !HasBit(0, k);
    }
  }

  lemma EmptyMaskName(info: EnumInfo)
    requires info.WellFormed()
    ensures MaskName(info, 0) == ""
  {
    NoBitsNoNames(info, 8);
  }

  /** The names of a mask with one bit are that one kind's name. */
  lemma {:induction false} OneBitNames(info: EnumInfo, k: Kind, n: nat)
    requires Nameable(info, Bit(k)) && n <= 8
    ensures SetNames(info, Bit(k), n) == if k < n then [info.spelling(k)] else []
  {
    if n > 0 {
      OneBitNames(info, k, n - 1);
      var j: Kind := n - 1;
      assert HasBit(Bit(k), j) <==> j == k by {
        assert KeepBit(Bit(k), j) == Bit(k) & Bit(j);
        assert HasBit(Bit(k), k);
      }
    }
  }

  lemma SingleKindName(info: EnumInfo, k: Kind)
    requires info.WellFormed() && info.Begin() <= k < info.End().value
    ensures Nameable(info, Bit(k))
    ensures MaskName(info, Bit(k)) == info.spelling(k)
  {
    assert forall j: Kind :: HasBit(Bit(k), j) ==> j == k by {
      forall j: Kind | HasBit(Bit(k), j) ensures j == k {
        assert KeepBit(Bit(k), j) == Bit(k) & Bit(j);
      }
    }
    OneBitNames(info, k, 8);
  }

  /** `Enum<Derived, true>`: a set of kinds held in one byte. */
  class BitmaskEnum {
    var value: bv8

    /** `explicit Enum(underlying value)`. */
    constructor FromValue(v: bv8)
      ensures value == v
    {
      value := v;
    }

    /** `Enum(Kinds... kind)`: at least one kind (with none, the defaulted
        constructor is chosen instead). */
    constructor FromKinds(kinds: seq<Kind>)
      requires |kinds| >= 1
      ensures value == KindsMask(kinds)
    {
      value := KindsMask(kinds);
    }

    /** `operator|`: a new mask with bit `k` added. */
    method Or(k: Kind) returns (r: BitmaskEnum)
      ensures fresh(r) && r.value == SetBit(value, k)
    {
      r := new BitmaskEnum.FromValue(value | Bit(k));
    }

    /** `operator&`: a new mask holding at most bit `k`. */
    method And(k: Kind) returns (r: BitmaskEnum)
      ensures fresh(r) && r.value == KeepBit(value, k)
    {
      r := new BitmaskEnum.FromValue(value & Bit(k));
    }

    /** `operator|=`. */
    method OrAssign(k: Kind)
      modifies this
      ensures value == SetBit(old(value), k)
    {
      value := value | Bit(k);
    }

    /** `operator&=`. */
    method AndAssign(k: Kind)
      modifies this
      ensures value == KeepBit(old(value), k)
    {
      value := value & Bit(k);
    }

    /** `operator bool`: some kind is set. */
    predicate ToBool()
      reads this
    {
      value != 0
    }

    /** `name()`: visit the bits from the lowest, appending each set bit's
        name, with " | " before all but the first. */
    method Name(info: EnumInfo) returns (masks: string)
      requires Nameable(info, value)
      ensures masks == MaskName(info, value)
    {
      masks := "";
      var isFirst := true;
      for i := 0 to 8
        invariant masks == Join(SetNames(info, value, i), " | ")
        invariant isFirst <==> SetNames(info, value, i) == []
      {
        var k: Kind := i;
        var hasBit := HasBit(value, k);
        var names := SetNames(info, value, i);
        if !hasBit {
          assert SetNames(info, value, i + 1) == names;
          continue;
        }
        if isFirst {
          isFirst := false;
        } else {
          masks := masks + " | ";
        }
        masks := masks + info.NameOf(k).value;
        assert SetNames(info, value, i + 1) == names + [info.NameOf(k).value];
        assert (names + [info.NameOf(k).value])[..|names|] == names;
      }
    }
  }

  /** A bitmask is true exactly when some kind is set. */
  lemma BitmaskTruth(v: bv8)
    ensures v != 0 <==> exists k: Kind :: HasBit(v, k)
  {
    if v != 0 && forall k: Kind :: !HasBit(v, k) {
      BitsDetermineMask(v, 0);
    }
  }

  /** Adding a kind twice is adding it once, and the order of additions does
      not matter. */
  lemma SetBitLaws(v: bv8, j: Kind, k: Kind)
    ensures SetBit(SetBit(v, k), k) == SetBit(v, k)
    ensures SetBit(SetBit(v, j), k) == SetBit(SetBit(v, k), j)
  {
    BitsDetermineMask(SetBit(SetBit(v, k), k), SetBit(v, k));
    BitsDetermineMask(SetBit(SetBit(v, j), k), SetBit(SetBit(v, k), j));
  }

  // ---------------------------------------------------------------------
  // Serde<E>
  // ---------------------------------------------------------------------

  /** The JSON values the serialiser sees: numbers (doubles) and the rest. */
  datatype Json = Number(n: real) | Other

  /** `serialize`: the underlying value as a JSON number. */
  function Serialize(value: bv8): Json {
    Number(value as int as real)
  }

  /** The conversion of a double to an integer: toward zero. */
  function Truncate(x: real): (r: int)
    ensures x >= 0.0 ==> r as real <= x < r as real + 1.0
    ensures x < 0.0 ==> r as real - 1.0 < x <= r as real
  {
    if x >= 0.0 then x.Floor else -((-x).Floor)
  }

  /** `deserialize`: the value must be a number (asserted), and its integral
      part must fit the underlying `uint8_t` (otherwise the conversion is
      undefined). */
  function Deserialize(j: Json): bv8
    requires j.Number? && -1.0 < j.n < 256.0
  {
    Truncate(j.n) as bv8
  }

  /** Deserialising a serialised value gives it back, and serialising a
      deserialised whole number gives the number back. */
  lemma SerdeRoundTrip(value: bv8)
    ensures Serialize(value).Number? && -1.0 < Serialize(value).n < 256.0
    ensures Deserialize(Serialize(value)) == value
  {
    assert Truncate(value as int as real) == value as int;
  }

  /** The byte holding `x`, counted up one at a time. */
  function ToByte(x: nat): (r: bv8)
    requires x < 256
    ensures r as int == x
  {
    if x == 0 then 0 else ToByte(x - 1) + 1
  }

  /** A value of 0 .. 255 survives the conversion to `uint8_t` and back. */
  lemma ByteRoundTrip(x: int)
    requires 0 <= x < 256
    ensures (x as bv8) as int == x
  {
    var b := ToByte(x);
    assert (b as int) as bv8 == b;
  }

  lemma DeserializeSerialize(j: Json)
    requires j.Number? && 0.0 <= j.n < 256.0 && j.n == j.n.Floor as real
    ensures Serialize(Deserialize(j)) == j
  {
    var x := j.n.Floor;
    assert 0 <= x < 256;
    assert Truncate(j.n) == x;
    ByteRoundTrip(x);
  }
}
