/**
 * `chmod`: the choice between a numeric and a symbolic mode argument, and the
 * translation of a symbolic expression such as `u+rwx` into a new mode.
 *
 * The mode of the target file is a parameter: `Some(m)` is the `u32` that
 * `metadata(path).permissions().mode()` returns, `None` means the path can be
 * neither inspected nor changed.
 */
module Permissions {
  import opened Common
  import opened Text
  import opened Bits

  /** Largest value of the `i32` digit accumulators. */
  const I32Max: nat := 0x7fff_ffff

  predicate IsCategory(c: char) { c == 'u' || c == 'g' || c == 'o' || c == 'a' }
  predicate IsOperator(c: char) { c == '+' || c == '-' }
  predicate IsCapability(c: char) { c == 'r' || c == 'w' || c == 'x' }

  /** Number of occurrences of `c` in `s`. */
  function Count(s: string, c: char): nat
  {
    if s == [] then 0 else Count(s[..|s| - 1], c) + (if s[|s| - 1] == c then 1 else 0)
  }

  /** The digit weight of a capability letter: read 4, write 2, execute 1. */
  function Weight(c: char): nat
  {
    if c == 'r' then 4 else if c == 'w' then 2 else if c == 'x' then 1 else 0
  }

  /** Sum of the weights of all capability letters of `s`, repeated ones included. */
  function CapabilitySum(s: string): nat
  {
    if s == [] then 0 else CapabilitySum(s[..|s| - 1]) + Weight(s[|s| - 1])
  }

  /** The category letters of `s`, in order. */
  function Categories(s: string): (r: string)
    ensures forall i :: 0 <= i < |r| ==> IsCategory(r[i])
  {
    if s == [] then [] else Categories(s[..|s| - 1]) + (if IsCategory(s[|s| - 1]) then [s[|s| - 1]] else [])
  }

  /** The capability letters of `s`, in order. */
  function Capabilities(s: string): (r: string)
    ensures forall i :: 0 <= i < |r| ==> IsCapability(r[i])
  {
    if s == [] then [] else Capabilities(s[..|s| - 1]) + (if IsCapability(s[|s| - 1]) then [s[|s| - 1]] else [])
  }

  /** The operator of `s`: the last `+` or `-` in it, `+` when there is none. */
  function Operation(s: string): (op: char)
    ensures IsOperator(op)
  {
    if s == [] then '+'
    else if IsOperator(s[|s| - 1]) then s[|s| - 1]
    else Operation(s[..|s| - 1])
  }

  /** The accumulated value of the user digit: every `u` and every `a` adds every capability. */
  function UserSum(s: string): nat { (Count(s, 'u') + Count(s, 'a')) * CapabilitySum(s) }
  function GroupSum(s: string): nat { (Count(s, 'g') + Count(s, 'a')) * CapabilitySum(s) }
  function OtherSum(s: string): nat { (Count(s, 'o') + Count(s, 'a')) * CapabilitySum(s) }

  /** `s` consists of decimal digits that are all below `radix`. */
  predicate AllDigitsBelow(s: string, radix: nat)
  {
    IsDigits(s) && forall i :: 0 <= i < |s| ==> DigitValue(s[i]) < radix
  }

  /**
   * Rust's `from_str_radix` for an unsigned type whose values lie below `limit`:
   * an optional leading `+`, then at least one digit below `radix`.
   */
  function ParseUnsigned(s: string, radix: nat, limit: nat): (r: Option<nat>)
    requires 2 <= radix <= 10
    ensures r.Some? ==> r.value < limit
  {
    var digits := if |s| > 0 && s[0] == '+' then s[1..] else s;
    if digits == [] || !AllDigitsBelow(digits, radix) then None
    else if DigitsValue(digits, radix) >= limit then None
    else Some(DigitsValue(digits, radix))
  }

  /**
   * The delta the three accumulated sums encode: written in decimal one after
   * the other, that string read in base 8. An accumulator past `i32::MAX` has
   * panicked (checked arithmetic); a string that is no octal `u32` is an
   * `InvalidInput` error.
   */
  function DeltaOfSums(u: nat, g: nat, o: nat): (r: Result<nat>)
    ensures r.Ok? ==> r.value < U32Limit
  {
    if u > I32Max || g > I32Max || o > I32Max then Err(Panic)
    else match ParseUnsigned(Decimal(u) + Decimal(g) + Decimal(o), 8, U32Limit)
      case None => Err(InvalidInput)
      case Some(v) => Ok(v)
  }

  /** The numeric delta of the symbolic expression `s`. */
  function Delta(s: string): (r: Result<nat>)
    ensures r.Ok? ==> r.value < U32Limit
  {
    DeltaOfSums(UserSum(s), GroupSum(s), OtherSum(s))
  }

  /** `+` ORs the delta into the mode, `-` XORs it. */
  function Apply(op: char, current: U32, delta: U32): U32
  {
    Pow2Of32();
    if op == '+' then (OrBelow(current, delta, 32); Or(current, delta))
    else (XorBelow(current, delta, 32); Xor(current, delta))
  }

  /** What `symbolic_to_octal` returns for expression `s` and the target's permission bits. */
  function SymbolicMode(s: string, current: Option<U32>): Result<U32>
  {
    match Delta(s)
    case Err(k) => Err(k)
    case Ok(d) =>
      if current.None? then Err(NotFound) else Ok(Apply(Operation(s), current.value, d))
  }

  /**
   * `chmod <mode> <path>` with `args[0]` the program and `args[1]` the command:
   * the mode set on the path, or the error. A mode that reads as a decimal `u8`
   * is taken as an octal literal and replaces the mode; anything else goes
   * through the symbolic translation, whose errors become `InvalidData`. An
   * accumulator overflow is no error value but a panic, and stays one.
   */
  function Chmod(args: seq<string>, current: Option<U32>): (r: Result<U32>)
    ensures |args| < 4 ==> r == Err(InvalidInput)
    ensures r.Ok? ==> current.Some?
    ensures r.Err? ==> r.kind == InvalidInput || r.kind == InvalidData || r.kind == Panic
    ensures r == Err(InvalidInput) ==> |args| < 4 || StartsWith(args[2], "-")
  {
    if |args| < 4 then Err(InvalidInput)
    else if StartsWith(args[2], "-") then Err(InvalidInput)
    else if ParseUnsigned(args[2], 10, 256).Some? then
      match ParseUnsigned(args[2], 8, U32Limit)
      case None => Err(InvalidData)
      case Some(m) => if current.None? then Err(InvalidData) else Ok(m)
    else
      match SymbolicMode(args[2], current)
      case Err(Panic) => Err(Panic)
      case Err(_) => Err(InvalidData)
      case Ok(m) => Ok(m)
  }

  // ---------------------------------------------------------------------------
  // The translation as the source performs it: pushing letters onto two strings,
  // then incrementing three accumulators in nested loops.

  lemma CountExtend(s: string, i: nat, c: char)
    requires i < |s|
    ensures Count(s[..i + 1], c) == Count(s[..i], c) + (if s[i] == c then 1 else 0)
    ensures CapabilitySum(s[..i + 1]) == CapabilitySum(s[..i]) + Weight(s[i])
  {
    assert s[..i + 1][..i] == s[..i];
  }

  lemma {:induction false} CountBound(s: string, i: nat, c: char)
    requires i <= |s|
    ensures Count(s[..i], c) <= Count(s, c)
    ensures CapabilitySum(s[..i]) <= CapabilitySum(s)
    decreases |s| - i
  {
    if i < |s| {
      CountExtend(s, i, c);
      CountBound(s, i + 1, c);
    } else {
      assert s[..i] == s;
    }
  }

  lemma {:induction false} CategoriesCount(s: string, c: char)
    ensures IsCategory(c) ==> Count(Categories(s), c) == Count(s, c)
    ensures !IsCategory(c) ==> Count(Categories(s), c) == 0
  {
    if s != [] {
      var init := s[..|s| - 1];
      CategoriesCount(init, c);
      var tail := if IsCategory(s[|s| - 1]) then [s[|s| - 1]] else [];
      CountAppend(Categories(init), tail, c);
    }
  }

  lemma {:induction false} CapabilitiesSum(s: string)
    ensures CapabilitySum(Capabilities(s)) == CapabilitySum(s)
  {
    if s != [] {
      var init := s[..|s| - 1];
      CapabilitiesSum(init);
      var tail := if IsCapability(s[|s| - 1]) then [s[|s| - 1]] else [];
      CountAppend(Capabilities(init), tail, 'r');
    }
  }

  lemma CountAppend(a: string, b: string, c: char)
    requires |b| <= 1
    ensures Count(a + b, c) == Count(a, c) + Count(b, c)
    ensures CapabilitySum(a + b) == CapabilitySum(a) + CapabilitySum(b)
  {
    if |b| == 1 {
      assert (a + b)[..|a + b| - 1] == a;
      assert b[..0] == [];
    } else {
      assert a + b == a;
    }
  }

  /**
   * The sum that the accumulator of a digit holds after the categories
   * `cats[..i]` have added every capability, and category `cats[i]` the
   * capabilities `caps[..j]`; `mine` tells which categories feed this digit.
   */
  function Partial(cats: string, caps: string, i: nat, j: nat, mine: char): nat
    requires i <= |cats| && j <= |caps|
  {
    (Count(cats[..i], mine) + Count(cats[..i], 'a')) * CapabilitySum(caps)
      + (if i < |cats| && (cats[i] == mine || cats[i] == 'a') then CapabilitySum(caps[..j]) else 0)
  }

  lemma PartialStep(cats: string, caps: string, i: nat, j: nat, mine: char)
    requires i < |cats| && j < |caps|
    ensures Partial(cats, caps, i, j + 1, mine)
         == Partial(cats, caps, i, j, mine) + (if cats[i] == mine || cats[i] == 'a' then Weight(caps[j]) else 0)
  {
    CountExtend(caps, j, 'r');
  }

  lemma PartialNext(cats: string, caps: string, i: nat, mine: char)
    requires i < |cats| && mine != 'a'
    ensures Partial(cats, caps, i + 1, 0, mine) == Partial(cats, caps, i, |caps|, mine)
  {
    CountExtend(cats, i, mine);
    CountExtend(cats, i, 'a');
    assert caps[..|caps|] == caps;
    assert caps[..0] == [];
    var k := Count(cats[..i], mine) + Count(cats[..i], 'a');
    var w := CapabilitySum(caps);
    if cats[i] == mine || cats[i] == 'a' {
      assert Count(cats[..i + 1], mine) + Count(cats[..i + 1], 'a') == k + 1;
      assert (k + 1) * w == k * w + w;
    }
  }

  lemma MulMono(a: nat, b: nat, w: nat)
    requires a <= b
    ensures a * w <= b * w
  {
  }

  lemma {:induction false} PartialBound(cats: string, caps: string, i: nat, j: nat, mine: char)
    requires i < |cats| && j <= |caps| && mine != 'a'
    ensures Partial(cats, caps, i, j, mine) <= (Count(cats, mine) + Count(cats, 'a')) * CapabilitySum(caps)
  {
    CountExtend(cats, i, mine);
    CountExtend(cats, i, 'a');
    CountBound(cats, i + 1, mine);
    CountBound(cats, i + 1, 'a');
    CountBound(caps, j, 'r');
    var k := Count(cats[..i], mine) + Count(cats[..i], 'a');
    var k1 := Count(cats[..i + 1], mine) + Count(cats[..i + 1], 'a');
    var w := CapabilitySum(caps);
    var feeds := if cats[i] == mine || cats[i] == 'a' then 1 else 0;
    assert k + feeds <= k1;
    assert Partial(cats, caps, i, j, mine) <= k * w + feeds * w == (k + feeds) * w;
    MulMono(k + feeds, k1, w);
    MulMono(k1, Count(cats, mine) + Count(cats, 'a'), w);
  }

  lemma FinalSums(s: string, cats: string, caps: string)
    requires cats == Categories(s) && caps == Capabilities(s)
    ensures Partial(cats, caps, |cats|, 0, 'u') == UserSum(s)
    ensures Partial(cats, caps, |cats|, 0, 'g') == GroupSum(s)
    ensures Partial(cats, caps, |cats|, 0, 'o') == OtherSum(s)
  {
    assert cats[..|cats|] == cats;
    CategoriesCount(s, 'u');
    CategoriesCount(s, 'g');
    CategoriesCount(s, 'o');
    CategoriesCount(s, 'a');
    CapabilitiesSum(s);
  }

  /** An accumulator that would pass `i32::MAX` now ends above it in the closed form too. */
  lemma OverflowFinal(s: string, cats: string, caps: string, i: nat, j: nat, mine: char, w: nat)
    requires cats == Categories(s) && caps == Capabilities(s)
    requires i < |cats| && j < |caps| && (cats[i] == mine || cats[i] == 'a') && w == Weight(caps[j])
    requires mine == 'u' || mine == 'g' || mine == 'o'
    requires Partial(cats, caps, i, j, mine) + w > I32Max
    ensures UserSum(s) > I32Max || GroupSum(s) > I32Max || OtherSum(s) > I32Max
  {
    PartialStep(cats, caps, i, j, mine);
    PartialBound(cats, caps, i, j + 1, mine);
    FinalSums(s, cats, caps);
    assert cats[..|cats|] == cats;
  }

  /** `symbolic_to_octal`, step by step as the source does it. */
  method SymbolicToOctal(expression: string, current: Option<U32>) returns (r: Result<U32>)
    ensures r == SymbolicMode(expression, current)
  {
    var categories: string := "";
    var capabilities: string := "";
    var operation := '+';
    for i := 0 to |expression|
      invariant categories == Categories(expression[..i])
      invariant capabilities == Capabilities(expression[..i])
      invariant operation == Operation(expression[..i])
    {
      assert expression[..i + 1][..i] == expression[..i];
      var c := expression[i];
      if IsCategory(c) {
        categories := categories + [c];
      } else if IsOperator(c) {
        operation := c;
      } else if IsCapability(c) {
        capabilities := capabilities + [c];
      }
    }
    assert expression[..|expression|] == expression;

    var user, group, other := 0, 0, 0;
    for i := 0 to |categories|
      invariant user == Partial(categories, capabilities, i, 0, 'u') <= I32Max
      invariant group == Partial(categories, capabilities, i, 0, 'g') <= I32Max
      invariant other == Partial(categories, capabilities, i, 0, 'o') <= I32Max
    {
      var category := categories[i];
      for j := 0 to |capabilities|
        invariant user == Partial(categories, capabilities, i, j, 'u') <= I32Max
        invariant group == Partial(categories, capabilities, i, j, 'g') <= I32Max
        invariant other == Partial(categories, capabilities, i, j, 'o') <= I32Max
      {
        var w := Weight(capabilities[j]);
        PartialStep(categories, capabilities, i, j, 'u');
        PartialStep(categories, capabilities, i, j, 'g');
        PartialStep(categories, capabilities, i, j, 'o');
        if category == 'u' || category == 'a' {
          if user + w > I32Max {
            OverflowFinal(expression, categories, capabilities, i, j, 'u', w);
            return Err(Panic);
          }
          user := user + w;
        }
        if category == 'g' || category == 'a' {
          if group + w > I32Max {
            OverflowFinal(expression, categories, capabilities, i, j, 'g', w);
            return Err(Panic);
          }
          group := group + w;
        }
        if category == 'o' || category == 'a' {
          if other + w > I32Max {
            OverflowFinal(expression, categories, capabilities, i, j, 'o', w);
            return Err(Panic);
          }
          other := other + w;
        }
      }
      PartialNext(categories, capabilities, i, 'u');
      PartialNext(categories, capabilities, i, 'g');
      PartialNext(categories, capabilities, i, 'o');
    }
    FinalSums(expression, categories, capabilities);

    var octalString := Decimal(user) + Decimal(group) + Decimal(other);
    var delta := ParseUnsigned(octalString, 8, U32Limit);
    if delta.None? {
      return Err(InvalidInput);
    }
    if current.None? {
      return Err(NotFound);
    }
    Pow2Of32();
    if operation == '+' {
      OrBelow(current.value, delta.value, 32);
      r := Ok(Or(current.value, delta.value));
    } else {
      // The source's third arm ("Invalid operation") cannot be reached.
      assert operation == '-';
      XorBelow(current.value, delta.value, 32);
      r := Ok(Xor(current.value, delta.value));
    }
  }
}

module PermissionProperties {
  import opened Common
  import opened Text
  import opened Bits
  import opened Permissions

  // ---------------------------------------------------------------------------
  // Reading the expression

  /** The last operator of the expression decides, whatever follows it. */
  lemma {:induction false} LastOperatorWins(s: string, k: nat)
    requires k < |s| && IsOperator(s[k])
    requires forall j :: k < j < |s| ==> !IsOperator(s[j])
    ensures Operation(s) == s[k]
  {
    if k < |s| - 1 {
      var init := s[..|s| - 1];
      LastOperatorWins(init, k);
    }
  }

  /** Without `+` or `-` the operator is `+`. */
  lemma {:induction false} NoOperatorMeansAdd(s: string)
    requires forall j :: 0 <= j < |s| ==> !IsOperator(s[j])
    ensures Operation(s) == '+'
  {
    if s != [] {
      NoOperatorMeansAdd(s[..|s| - 1]);
    }
  }

  lemma {:induction false} CountIsMultiplicity(s: string, c: char)
    ensures Count(s, c) == multiset(s)[c]
  {
    if s != [] {
      var init := s[..|s| - 1];
      CountIsMultiplicity(init, c);
      assert s == init + [s[|s| - 1]];
    }
  }

  lemma {:induction false} CapabilityCounts(s: string)
    ensures CapabilitySum(s) == 4 * Count(s, 'r') + 2 * Count(s, 'w') + Count(s, 'x')
  {
    if s != [] {
      CapabilityCounts(s[..|s| - 1]);
    }
  }

  lemma {:induction false} CountPositive(s: string, c: char)
    ensures Count(s, c) > 0 <==> c in s
  {
    if s != [] {
      var init := s[..|s| - 1];
      CountPositive(init, c);
      assert s == init + [s[|s| - 1]];
    }
  }

  /** Expressions with the same number of each category and capability letter have the same delta. */
  lemma DeltaFromCounts(s: string, t: string)
    requires forall c | c in "ugoarwx" :: multiset(s)[c] == multiset(t)[c]
    ensures Delta(s) == Delta(t)
  {
    forall c | c in "ugoarwx" ensures Count(s, c) == Count(t, c) {
      CountIsMultiplicity(s, c);
      CountIsMultiplicity(t, c);
    }
    CapabilityCounts(s);
    CapabilityCounts(t);
    assert UserSum(s) == UserSum(t) && GroupSum(s) == GroupSum(t) && OtherSum(s) == OtherSum(t);
  }

  /**
   * Only how often each letter occurs matters for the delta, not where: the
   * categories, the operator and the capabilities may come in any order.
   */
  lemma DeltaIgnoresOrder(s: string, t: string)
    requires multiset(s) == multiset(t)
    ensures Delta(s) == Delta(t)
  {
    DeltaFromCounts(s, t);
  }

  lemma SymbolicModeFromParts(s: string, t: string, current: Option<U32>)
    requires Delta(s) == Delta(t) && Operation(s) == Operation(t)
    ensures SymbolicMode(s, current) == SymbolicMode(t, current)
  {
  }

  /** Expressions that agree on their letter counts and on their last operator translate alike. */
  lemma SymbolicModeIgnoresOrder(s: string, t: string, current: Option<U32>)
    requires multiset(s) == multiset(t) && Operation(s) == Operation(t)
    ensures SymbolicMode(s, current) == SymbolicMode(t, current)
  {
    DeltaIgnoresOrder(s, t);
    SymbolicModeFromParts(s, t, current);
  }

  lemma {:induction false} OperationIgnores(a: string, c: char, b: string)
    requires !IsOperator(c)
    ensures Operation(a + [c] + b) == Operation(a + b)
  {
    if b == [] {
      assert a + [c] + b == a + [c];
      assert (a + [c])[..|a|] == a;
      assert a + b == a;
    } else {
      var init := b[..|b| - 1];
      OperationIgnores(a, c, init);
      assert (a + [c] + b)[..|a + [c] + b| - 1] == a + [c] + init;
      assert (a + b)[..|a + b| - 1] == a + init;
    }
  }

  lemma InsertedMultiset(s: string, k: nat, c: char)
    requires k <= |s|
    ensures multiset(s[..k] + [c] + s[k..]) == multiset(s) + multiset{c}
  {
    assert s == s[..k] + s[k..];
  }

  /** A character that is no category, operator or capability letter changes nothing. */
  lemma IgnoredCharacter(s: string, k: nat, c: char, current: Option<U32>)
    requires k <= |s| && !IsCategory(c) && !IsOperator(c) && !IsCapability(c)
    ensures SymbolicMode(s[..k] + [c] + s[k..], current) == SymbolicMode(s, current)
  {
    var t := s[..k] + [c] + s[k..];
    InsertedMultiset(s, k, c);
    DeltaFromCounts(s, t);
    assert s == s[..k] + s[k..];
    OperationIgnores(s[..k], c, s[k..]);
    SymbolicModeFromParts(s, t, current);
  }

  // ---------------------------------------------------------------------------
  // The delta

  lemma ThreeDigitsValue(s: string, a: nat, b: nat, c: nat)
    requires a < 8 && b < 8 && c < 8 && s == [DigitChar(a), DigitChar(b), DigitChar(c)]
    ensures DigitsValue(s, 8) == 64 * a + 8 * b + c
  {
    assert s[..2] == [DigitChar(a), DigitChar(b)];
    assert s[..2][..1] == [DigitChar(a)];
    assert s[..2][..1][..0] == [];
    assert DigitsValue([DigitChar(a)], 8) == a;
    assert DigitsValue(s[..2], 8) == 8 * a + b;
  }

  lemma ParseThreeDigits(s: string, a: nat, b: nat, c: nat)
    requires a < 8 && b < 8 && c < 8 && s == [DigitChar(a), DigitChar(b), DigitChar(c)]
    ensures ParseUnsigned(s, 8, U32Limit) == Some(64 * a + 8 * b + c)
  {
    ThreeDigitsValue(s, a, b, c);
    assert s[0] != '+';
    assert AllDigitsBelow(s, 8);
  }

  /** Sums below 8 are read as the three digits of one octal number. */
  lemma SmallSums(a: nat, b: nat, c: nat)
    requires a < 8 && b < 8 && c < 8
    ensures DeltaOfSums(a, b, c) == Ok(64 * a + 8 * b + c)
  {
    var s := [DigitChar(a), DigitChar(b), DigitChar(c)];
    assert Decimal(a) + Decimal(b) + Decimal(c) == s;
    ParseThreeDigits(s, a, b, c);
  }

  /** The digit the source intends for `category`: the weights of the requested capabilities. */
  function IntendedDigit(s: string, category: char): nat
  {
    if category in s || 'a' in s then
      (if 'r' in s then 4 else 0) + (if 'w' in s then 2 else 0) + (if 'x' in s then 1 else 0)
    else 0
  }

  lemma SumsWithoutRepeats(s: string)
    requires forall c :: (IsCategory(c) || IsCapability(c)) ==> Count(s, c) <= 1
    requires 'a' in s ==> 'u' !in s && 'g' !in s && 'o' !in s
    ensures UserSum(s) == IntendedDigit(s, 'u')
    ensures GroupSum(s) == IntendedDigit(s, 'g')
    ensures OtherSum(s) == IntendedDigit(s, 'o')
  {
    forall c | c in "ugoarwx" ensures Count(s, c) == (if c in s then 1 else 0) {
      CountPositive(s, c);
      assert IsCategory(c) || IsCapability(c);
    }
    CapabilityCounts(s);
  }

  /**
   * With no letter repeated and `a` never beside `u`, `g` or `o`, the delta is
   * the three-digit octal number of the requested capabilities per category.
   */
  lemma DeltaWithoutRepeats(s: string)
    requires forall c :: (IsCategory(c) || IsCapability(c)) ==> Count(s, c) <= 1
    requires 'a' in s ==> 'u' !in s && 'g' !in s && 'o' !in s
    ensures Delta(s) == Ok(64 * IntendedDigit(s, 'u') + 8 * IntendedDigit(s, 'g') + IntendedDigit(s, 'o'))
  {
    SumsWithoutRepeats(s);
    SmallSums(IntendedDigit(s, 'u'), IntendedDigit(s, 'g'), IntendedDigit(s, 'o'));
  }

  lemma NoCategoryZeroSums(s: string)
    requires forall j :: 0 <= j < |s| ==> !IsCategory(s[j])
    ensures UserSum(s) == 0 && GroupSum(s) == 0 && OtherSum(s) == 0
  {
    forall c | c in "ugoa" ensures Count(s, c) == 0 {
      CountPositive(s, c);
    }
  }

  /** An expression without category letters has delta 0 and leaves the mode as it is. */
  lemma NoCategoryNoChange(s: string, mode: U32)
    requires forall j :: 0 <= j < |s| ==> !IsCategory(s[j])
    ensures Delta(s) == Ok(0)
    ensures SymbolicMode(s, Some(mode)) == Ok(mode)
  {
    NoCategoryZeroSums(s);
    SmallSums(0, 0, 0);
    assert Delta(s) == Ok(0);
    ApplyZero(Operation(s), mode);
  }

  lemma ApplyZero(op: char, mode: U32)
    ensures Apply(op, mode, 0) == mode
  {
    OrZero(mode);
  }

  /** The letter counts of a concrete expression, read off its multiset. */
  lemma CountsOf(e: string)
    ensures forall c | c in "ugoarwx" :: Count(e, c) == multiset(e)[c]
    ensures CapabilitySum(e) == 4 * multiset(e)['r'] + 2 * multiset(e)['w'] + multiset(e)['x']
  {
    forall c | c in "ugoarwx" ensures Count(e, c) == multiset(e)[c] {
      CountIsMultiplicity(e, c);
    }
    CapabilityCounts(e);
  }

  /** A user sum of 8 writes the digit 8, which no octal number has. */
  lemma EightFails(g: nat, o: nat)
    requires g < 8 && o < 8
    ensures DeltaOfSums(8, g, o) == Err(InvalidInput)
  {
    var digits := Decimal(8) + Decimal(g) + Decimal(o);
    assert digits[0] == '8';
    assert !AllDigitsBelow(digits, 8) by { assert DigitValue(digits[0]) == 8; }
  }

  lemma DoubleUserSums()
    ensures UserSum("uu+r") == 8 && GroupSum("uu+r") == 0 && OtherSum("uu+r") == 0
  {
    CountsOf("uu+r");
  }

  /** Repeated letters add up instead of merging: `uu+r` sums to 8, and "800" is no octal number. */
  lemma RepeatedCategoryFails()
    ensures Delta("uu+r") == Err(InvalidInput)
  {
    DoubleUserSums();
    EightFails(0, 0);
  }

  lemma AllBesideUserSums()
    ensures UserSum("ua+r") == 8 && GroupSum("ua+r") == 4 && OtherSum("ua+r") == 4
  {
    CountsOf("ua+r");
  }

  /** `a` adds to the user digit on top of `u`: `ua+r` sums to 8, 4, 4, and "844" is no octal number. */
  lemma AllBesideUserFails()
    ensures Delta("ua+r") == Err(InvalidInput)
  {
    AllBesideUserSums();
    EightFails(4, 4);
  }

  /** A repeated capability adds up as well: `u+rr` sums to 8. */
  lemma RepeatedCapabilityFails()
    ensures Delta("u+rr") == Err(InvalidInput)
  {
    assert UserSum("u+rr") == 8 && GroupSum("u+rr") == 0 && OtherSum("u+rr") == 0 by {
      CountsOf("u+rr");
    }
    EightFails(0, 0);
  }

  lemma LongSums()
    ensures UserSum("uu+rx") == 10 && GroupSum("uu+rx") == 0 && OtherSum("uu+rx") == 0
  {
    CountsOf("uu+rx");
  }

  /** The sums 10, 0, 0 write "1000", which is octal 1000. */
  lemma TenShifts()
    ensures DeltaOfSums(10, 0, 0) == Ok(512)
  {
    assert Decimal(10) + Decimal(0) + Decimal(0) == "1000";
    assert DigitsValue("1000", 8) == 512 by {
      assert "1000"[..3] == "100" && "100"[..2] == "10" && "10"[..1] == "1" && "1"[..0] == "";
    }
    assert AllDigitsBelow("1000", 8);
  }

  /** A sum of ten or more widens the string: `uu+rx` sums to 10, 0, 0 and "1000" is octal 1000. */
  lemma LongSumShiftsDigits()
    ensures Delta("uu+rx") == Ok(512)
  {
    LongSums();
    TenShifts();
  }

  // ---------------------------------------------------------------------------
  // Applying the delta

  /** `+` sets every requested bit and keeps every other bit. */
  lemma AddSetsRequestedBits(current: U32, delta: U32, i: nat)
    ensures Bit(Apply('+', current, delta), i) == (Bit(current, i) || Bit(delta, i))
  {
    OrBits(current, delta, i);
  }

  /**
   * `-` flips every requested bit: one that was set is cleared, but one that
   * was clear is set. Bits outside the delta are kept.
   */
  lemma SubtractTogglesRequestedBits(current: U32, delta: U32, i: nat)
    ensures Bit(Apply('-', current, delta), i) == (Bit(current, i) != Bit(delta, i))
  {
    XorBits(current, delta, i);
  }

  lemma WriteSums()
    ensures UserSum("u-w") == 2 && GroupSum("u-w") == 0 && OtherSum("u-w") == 0
  {
    CountsOf("u-w");
  }

  lemma SubtractWriteDelta()
    ensures Delta("u-w") == Ok(128) && Operation("u-w") == '-'
  {
    WriteSums();
    SmallSums(2, 0, 0);
    LastOperatorWins("u-w", 1);
  }

  /** `u-w` on mode 0o666 (438) gives 0o466 (310); on 0o466 it sets the bit again. */
  lemma SubtractOnExamples()
    ensures SymbolicMode("u-w", Some(438)) == Ok(310)
    ensures SymbolicMode("u-w", Some(310)) == Ok(438)
  {
    SubtractWriteDelta();
    TranslatedMode("u-w", 438, 128);
    TranslatedMode("u-w", 310, 128);
    ToggleWrite();
  }

  lemma ToggleWrite()
    ensures Apply('-', 438, 128) == 310 && Apply('-', 310, 128) == 438
  {
    // Bit by bit, from the highest one down.
    assert Xor(1, 0) == 1;
    assert Xor(3, 1) == 2;
    assert Xor(6, 2) == 4;
    assert Xor(13, 4) == 9;
    assert Xor(27, 8) == 19;
    assert Xor(54, 16) == 38;
    assert Xor(109, 32) == 77;
    assert Xor(219, 64) == 155;
    assert Xor(438, 128) == 310;
    assert Xor(2, 1) == 3;
    assert Xor(4, 2) == 6;
    assert Xor(9, 4) == 13;
    assert Xor(19, 8) == 27;
    assert Xor(38, 16) == 54;
    assert Xor(77, 32) == 109;
    assert Xor(155, 64) == 219;
    assert Xor(310, 128) == 438;
  }

  lemma TranslatedMode(s: string, mode: U32, d: nat)
    requires Delta(s) == Ok(d)
    ensures d < U32Limit && SymbolicMode(s, Some(mode)) == Ok(Apply(Operation(s), mode, d))
  {
  }

  // ---------------------------------------------------------------------------
  // The mode argument of `chmod`

  lemma {:induction false} OctalValueBelowDecimal(s: string)
    requires IsDigits(s)
    ensures DigitsValue(s, 8) <= DigitsValue(s, 10)
  {
    if s != [] {
      OctalValueBelowDecimal(s[..|s| - 1]);
    }
  }

  lemma NumericParses(s: string)
    requires s != [] && IsDigits(s) && DigitsValue(s, 10) < 256
    requires forall i :: 0 <= i < |s| ==> DigitValue(s[i]) < 8
    ensures ParseUnsigned(s, 10, 256).Some?
    ensures ParseUnsigned(s, 8, U32Limit) == Some(DigitsValue(s, 8))
  {
    assert s[0] != '+';
    assert AllDigitsBelow(s, 10) && AllDigitsBelow(s, 8);
    OctalValueBelowDecimal(s);
  }

  /** A decimal `u8` made of octal digits is read in base 8 and replaces the mode outright. */
  lemma NumericModeReplaces(args: seq<string>, mode: U32)
    requires |args| >= 4 && args[2] != [] && IsDigits(args[2])
    requires forall i :: 0 <= i < |args[2]| ==> DigitValue(args[2][i]) < 8
    requires DigitsValue(args[2], 10) < 256
    ensures Chmod(args, Some(mode)).Ok? && Chmod(args, Some(mode)).value as int == DigitsValue(args[2], 8)
    ensures Chmod(args, None) == Err(InvalidData)
  {
    assert !StartsWith(args[2], "-") by { assert '0' <= args[2][0] <= '9'; }
    NumericParses(args[2]);
  }

  /** A decimal `u8` with a digit 8 or 9 (such as "8" or "19") is an error. */
  lemma NumericWithNonOctalDigitFails(args: seq<string>, current: Option<U32>, k: nat)
    requires |args| >= 4 && IsDigits(args[2]) && DigitsValue(args[2], 10) < 256
    requires k < |args[2]| && DigitValue(args[2][k]) >= 8
    ensures Chmod(args, current) == Err(InvalidData)
  {
    assert !StartsWith(args[2], "-") by { assert '0' <= args[2][0] <= '9'; }
    assert AllDigitsBelow(args[2], 10);
    assert !AllDigitsBelow(args[2], 8);
  }

  /**
   * A decimal number above 255 (such as "755") is no `u8`, so it is read as a
   * symbolic expression: the digits are ignored and the mode stays as it is.
   */
  lemma LargeNumberLeavesMode(args: seq<string>, mode: U32)
    requires |args| >= 4 && args[2] != [] && IsDigits(args[2])
    requires DigitsValue(args[2], 10) > 255
    ensures Chmod(args, Some(mode)) == Ok(mode)
  {
    assert !StartsWith(args[2], "-") by { assert '0' <= args[2][0] <= '9'; }
    NoCategoryNoChange(args[2], mode);
  }

  lemma SevenFiveFive(path: string, mode: U32)
    ensures Chmod(["rustybox", "chmod", "755", path], Some(mode)) == Ok(mode)
  {
    LargeNumberLeavesMode(["rustybox", "chmod", "755", path], mode);
  }

  /**
   * A mode argument that is neither an option nor a decimal `u8` goes through
   * the symbolic translation: its mode is the one set, an overflow stays a
   * panic, and every other error is `InvalidData`.
   */
  lemma SymbolicBranch(args: seq<string>, current: Option<U32>)
    requires |args| >= 4 && !StartsWith(args[2], "-") && ParseUnsigned(args[2], 10, 256).None?
    ensures Chmod(args, current) ==
      match SymbolicMode(args[2], current)
      case Ok(m) => Ok(m)
      case Err(Panic) => Err(Panic)
      case Err(_) => Err(InvalidData)
  {
  }

  /**
   * `chmod <expr> <path>` with no letter of `expr` repeated and `a` never
   * beside `u`, `g` or `o`: the mode becomes the current one combined, by the
   * last operator, with the weights of the requested capabilities in each
   * requested category; a path whose mode cannot be read gives `InvalidData`.
   */
  lemma SymbolicWithoutRepeats(args: seq<string>, mode: U32)
    requires |args| >= 4 && !StartsWith(args[2], "-") && ParseUnsigned(args[2], 10, 256).None?
    requires forall c :: (IsCategory(c) || IsCapability(c)) ==> Count(args[2], c) <= 1
    requires 'a' in args[2] ==> 'u' !in args[2] && 'g' !in args[2] && 'o' !in args[2]
    ensures var d := 64 * IntendedDigit(args[2], 'u') + 8 * IntendedDigit(args[2], 'g') + IntendedDigit(args[2], 'o');
      d < U32Limit && Chmod(args, Some(mode)) == Ok(Apply(Operation(args[2]), mode, d))
    ensures Chmod(args, None) == Err(InvalidData)
  {
    var e := args[2];
    var d := 64 * IntendedDigit(e, 'u') + 8 * IntendedDigit(e, 'g') + IntendedDigit(e, 'o');
    DeltaWithoutRepeats(e);
    TranslatedMode(e, mode, d);
    SymbolicBranch(args, Some(mode));
    SymbolicBranch(args, None);
  }

  /** The letter counts of `e` are at most one each. */
  lemma NoRepeatedLetters(e: string)
    requires forall c | c in "ugoarwx" :: multiset(e)[c] <= 1
    ensures forall c :: (IsCategory(c) || IsCapability(c)) ==> Count(e, c) <= 1
  {
    CountsOf(e);
  }

  /** `e` takes the symbolic branch, with no letter repeated and no `a`. */
  predicate SymbolicSingleLetters(e: string)
  {
    !StartsWith(e, "-") && ParseUnsigned(e, 10, 256).None? && 'a' !in e &&
    forall c :: (IsCategory(c) || IsCapability(c)) ==> Count(e, c) <= 1
  }

  lemma UserExecuteExpression()
    ensures SymbolicSingleLetters("u+x") && Operation("u+x") == '+'
    ensures IntendedDigit("u+x", 'u') == 1 && IntendedDigit("u+x", 'g') == 0 && IntendedDigit("u+x", 'o') == 0
  {
    var e := "u+x";
    assert !IsDigits(e) && !StartsWith(e, "-") by {
      assert e[0] == 'u' && e[..1][0] == 'u';
    }
    NoRepeatedLetters(e);
    LastOperatorWins(e, 1);
  }

  /** The mode `chmod` sets for an expression with single letters, once its operator and delta are known. */
  lemma SymbolicInstance(args: seq<string>, mode: U32, op: char, d: nat)
    requires |args| >= 4 && SymbolicSingleLetters(args[2]) && Operation(args[2]) == op
    requires d == 64 * IntendedDigit(args[2], 'u') + 8 * IntendedDigit(args[2], 'g') + IntendedDigit(args[2], 'o')
    ensures d < U32Limit && Chmod(args, Some(mode)) == Ok(Apply(op, mode, d))
  {
    SymbolicWithoutRepeats(args, mode);
  }

  /** `chmod u+x <path>` sets the user execute bit, 0o100, and keeps every other bit. */
  lemma UserExecute(path: string, mode: U32)
    ensures Chmod(["rustybox", "chmod", "u+x", path], Some(mode)) == Ok(Or(mode, 64))
  {
    UserExecuteExpression();
    SymbolicInstance(["rustybox", "chmod", "u+x", path], mode, '+', 64);
  }

  lemma GroupOtherWriteExpression()
    ensures SymbolicSingleLetters("go-w") && Operation("go-w") == '-'
    ensures IntendedDigit("go-w", 'u') == 0 && IntendedDigit("go-w", 'g') == 2 && IntendedDigit("go-w", 'o') == 2
  {
    var e := "go-w";
    assert !IsDigits(e) && !StartsWith(e, "-") by {
      assert e[0] == 'g' && e[..1][0] == 'g';
    }
    NoRepeatedLetters(e);
    LastOperatorWins(e, 2);
  }

  /** `chmod go-w <path>` toggles the group and other write bits, 0o020 and 0o002. */
  lemma GroupOtherToggleWrite(path: string, mode: U32)
    ensures Chmod(["rustybox", "chmod", "go-w", path], Some(mode)) == Ok(Xor(mode, 18))
  {
    GroupOtherWriteExpression();
    SymbolicInstance(["rustybox", "chmod", "go-w", path], mode, '-', 18);
  }

  /** Too few arguments, or a mode argument that looks like an option, are `InvalidInput`. */
  lemma MalformedArgumentsFail(args: seq<string>, current: Option<U32>)
    requires |args| < 4 || (|args[2]| > 0 && args[2][0] == '-')
    ensures Chmod(args, current) == Err(InvalidInput)
  {
    if |args| >= 4 {
      assert args[2][..1] == "-";
    }
  }
}
