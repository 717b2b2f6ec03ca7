/**
 The tolerance and array assertions of `libs/unity/unity.c`. Elements are read from byte
 memory at the width of the display style; UNITY_INT and UNITY_UINT hold 2^32 or 2^64
 values, and all their arithmetic wraps around.
 */
module UnityArrays {
  import opened Arithmetic
  import opened Octets
  import opened Sequences
  import opened Wrappers

  type Pointer = Option<nat>

  /* UNITY_SUPPORT_64 decides the width of UNITY_INT. */
  function IntLimit(support64: bool): nat {
    if support64 then 0x1_0000_0000_0000_0000 else 0x1_0000_0000
  }

  //////////////////////////////////////////////////////////////////////////////
  // Values
  //////////////////////////////////////////////////////////////////////////////

  /* One past the largest unsigned number of w bytes. */
  function WidthLimit(w: nat): nat
    requires w == 1 || w == 2 || w == 4 || w == 8
  {
    if w == 1 then 0x100 else if w == 2 then 0x1_0000
    else if w == 4 then 0x1_0000_0000 else 0x1_0000_0000_0000_0000
  }

  /* Two's complement: an unsigned number of a type with `limit` values read as signed, and
     a signed one converted to unsigned. */
  function ToSigned(u: int, limit: nat): int {
    if u >= limit / 2 then u - limit else u
  }

  function ToUnsigned(s: int, limit: nat): int {
    if s < 0 then s + limit else s
  }

  lemma DecodeBelow(b: seq<octet>)
    requires |b| == 1 || |b| == 2 || |b| == 4 || |b| == 8
    ensures Decode(b) < WidthLimit(|b|)
  {
    DecodeBelowLimit(b);
  }

  //////////////////////////////////////////////////////////////////////////////
  // Distance
  //////////////////////////////////////////////////////////////////////////////

  function Distance(x: int, y: int): nat {
    if x > y then x - y else y - x
  }

  /* The C expression `(UNITY_UINT)hi - (UNITY_UINT)lo`. */
  function WrappedDifference(hi: int, lo: int, limit: nat): int
    requires limit > 0
  {
    (ToUnsigned(hi, limit) - ToUnsigned(lo, limit)) % limit
  }

  /* The wrapped difference of the larger and the smaller number is their distance, also where
     the signed subtraction would overflow. */
  lemma WrappedDifferenceIsDistance(hi: int, lo: int, limit: nat)
    requires limit == IntLimit(true) || limit == IntLimit(false)
    requires lo <= hi && hi - lo < limit
    requires (-(limit / 2) <= lo && hi < limit / 2) || (0 <= lo && hi < limit)
    ensures WrappedDifference(hi, lo, limit) == hi - lo
  {
  }

  //////////////////////////////////////////////////////////////////////////////
  // The element an array assertion looks at
  //////////////////////////////////////////////////////////////////////////////

  datatype Range = Int | Uint | Hex

  /* A display style: its length nibble and its range bits. */
  datatype Style = Style(length: nat, range: Range)

  datatype Flags = ArrayToVal | ArrayToArray

  /* The increment that the switch on the length comes to: anything unknown counts as 4. */
  function Width(length: nat, support64: bool): (w: nat)
    ensures w == 1 || w == 2 || w == 4 || w == 8
    ensures WidthLimit(w) <= IntLimit(support64)
  {
    if length == 1 then 1 else if length == 2 then 2 else if length == 8 && support64 then 8 else 4
  }

  /* What an array assertion reports. */
  datatype Report =
    | Passes
    | Aborts                 // the test already has a verdict
    | Pointless              // no elements
    | NullPointer            // just one of the pointers is NULL
    | Element(index: nat)    // the first offending element

  /* Where element k of an array at p is, or the one value at p. */
  function At(p: nat, k: nat, w: nat, step: bool): nat {
    if step then p + k * w else p
  }

  lemma AtNext(p: nat, k: nat, w: nat, step: bool)
    ensures At(p, k + 1, w, step) == if step then At(p, k, w, step) + w else At(p, k, w, step)
    ensures At(p, 0, w, step) == p
  {
    assert (k + 1) * w == k * w + w;
  }

  function ElementBytes(mem: seq<octet>, p: nat, k: nat, w: nat, step: bool): (b: seq<octet>)
    requires At(p, k, w, step) + w <= |mem|
    ensures |b| == w
  {
    mem[At(p, k, w, step)..At(p, k, w, step) + w]
  }

  /* All elements that an assertion over n elements may read are in memory. */
  predicate Readable(mem: seq<octet>, p: nat, n: nat, w: nat, step: bool) {
    n > 0 ==> if step then p + n * w <= |mem| else p + w <= |mem|
  }

  lemma ElementReadable(mem: seq<octet>, p: nat, n: nat, w: nat, step: bool, k: nat)
    requires Readable(mem, p, n, w, step) && k < n
    ensures At(p, k, w, step) + w <= |mem|
  {
    MulOrder(k, n, w);
  }

  /* The value a read of that element yields in the equality assertion: sign-extended, and
     masked back to its width for unsigned and hexadecimal styles. */
  function EqualityValue(b: seq<octet>, style: Style, support64: bool): int
    requires |b| == Width(style.length, support64)
  {
    var limit := WidthLimit(|b|);
    var signed := ToSigned(Decode(b), limit);
    if style.range.Int? || |b| == 8 || (|b| == 4 && !support64) then signed
    else ToUnsigned(signed, limit)  // & 0xFF, & 0xFFFF, & 0xFFFFFFFF
  }

  /* Whatever the style, the values compared are equal exactly when the bytes are. */
  lemma EqualityIsByteEquality(a: seq<octet>, b: seq<octet>, style: Style, support64: bool)
    requires |a| == |b| == Width(style.length, support64)
    ensures EqualityValue(a, style, support64) == EqualityValue(b, style, support64) <==> a == b
  {
    hide Decode;
    DecodeBelow(a);
    DecodeBelow(b);
    if EqualityValue(a, style, support64) == EqualityValue(b, style, support64) {
      DecodeInjective(a, b);
    }
  }

  /* The number an element denotes at the style's width and signedness. */
  function Number(b: seq<octet>, style: Style, support64: bool): int
    requires |b| == Width(style.length, support64)
  {
    if style.range.Int? then ToSigned(Decode(b), WidthLimit(|b|)) else Decode(b)
  }

  /* What the tolerance assertion holds in its UNITY_INT variable for that element. */
  function HeldValue(b: seq<octet>, style: Style, support64: bool): int
    requires |b| == Width(style.length, support64)
  {
    if style.range.Int? then Number(b, style, support64)
    else ToSigned(Decode(b), IntLimit(support64))  // the cast of an unsigned read to UNITY_INT
  }

  /* The tolerance test on two held values. */
  function ExceedsDelta(delta: nat, expected: int, actual: int, style: Style, limit: nat): bool
    requires limit > 0
  {
    if style.range.Int? then
      if actual > expected then WrappedDifference(actual, expected, limit) > delta
      else WrappedDifference(expected, actual, limit) > delta
    else
      var e, a := ToUnsigned(expected, limit), ToUnsigned(actual, limit);
      if a > e then WrappedDifference(a, e, limit) > delta
      else WrappedDifference(e, a, limit) > delta
  }

  /* It fails exactly when the numbers are further apart than delta. */
  lemma ExceedsDeltaIsExact(a: seq<octet>, b: seq<octet>, delta: nat, style: Style, support64: bool)
    requires |a| == |b| == Width(style.length, support64)
    ensures ExceedsDelta(delta, HeldValue(a, style, support64), HeldValue(b, style, support64), style,
                         IntLimit(support64))
       <==> Distance(Number(a, style, support64), Number(b, style, support64)) > delta
  {
    hide Decode, WrappedDifference;
    DecodeBelow(a);
    DecodeBelow(b);
    var limit := IntLimit(support64);
    var x, y := Number(a, style, support64), Number(b, style, support64);
    if x > y {
      WrappedDifferenceIsDistance(x, y, limit);
    } else {
      WrappedDifferenceIsDistance(y, x, limit);
    }
  }

  //////////////////////////////////////////////////////////////////////////////
  // The assertions
  //////////////////////////////////////////////////////////////////////////////

  ghost predicate SameElement(mem: seq<octet>, e: nat, a: nat, w: nat, flags: Flags, n: nat, k: nat)
    requires Readable(mem, e, n, w, flags.ArrayToArray?) && Readable(mem, a, n, w, true) && k < n
  {
    ElementReadable(mem, e, n, w, flags.ArrayToArray?, k);
    ElementReadable(mem, a, n, w, true, k);
    ElementBytes(mem, e, k, w, flags.ArrayToArray?) == ElementBytes(mem, a, k, w, true)
  }

  ghost predicate NearElement(mem: seq<octet>, delta: nat, e: nat, a: nat, style: Style, support64: bool,
                              flags: Flags, n: nat, k: nat)
    requires var w := Width(style.length, support64);
             Readable(mem, e, n, w, flags.ArrayToArray?) && Readable(mem, a, n, w, true) && k < n
  {
    var w := Width(style.length, support64);
    ElementReadable(mem, e, n, w, flags.ArrayToArray?, k);
    ElementReadable(mem, a, n, w, true, k);
    Distance(Number(ElementBytes(mem, e, k, w, flags.ArrayToArray?), style, support64),
             Number(ElementBytes(mem, a, k, w, true), style, support64)) <= delta
  }

  /* For every element compared, whether it is all right. */
  ghost function SameElements(mem: seq<octet>, e: nat, a: nat, w: nat, flags: Flags, n: nat): (good: seq<bool>)
    requires Readable(mem, e, n, w, flags.ArrayToArray?) && Readable(mem, a, n, w, true)
    ensures |good| == n
  {
    seq(n, k requires 0 <= k < n => SameElement(mem, e, a, w, flags, n, k))
  }

  ghost function NearElements(mem: seq<octet>, delta: nat, e: nat, a: nat, style: Style, support64: bool,
                              flags: Flags, n: nat): (good: seq<bool>)
    requires var w := Width(style.length, support64);
             Readable(mem, e, n, w, flags.ArrayToArray?) && Readable(mem, a, n, w, true)
    ensures |good| == n
  {
    seq(n, k requires 0 <= k < n => NearElement(mem, delta, e, a, style, support64, flags, n, k))
  }

  lemma SameElementByValue(mem: seq<octet>, e: nat, a: nat, style: Style, support64: bool, flags: Flags, n: nat, k: nat)
    requires var w := Width(style.length, support64);
             Readable(mem, e, n, w, flags.ArrayToArray?) && Readable(mem, a, n, w, true) && k < n
    ensures var w := Width(style.length, support64);
            var x, y := At(e, k, w, flags.ArrayToArray?), At(a, k, w, true);
            && x + w <= |mem| && y + w <= |mem|
            && (SameElements(mem, e, a, w, flags, n)[k]
                <==> EqualityValue(mem[x..x + w], style, support64) == EqualityValue(mem[y..y + w], style, support64))
  {
    hide EqualityValue, Width, Readable, At;
    var w := Width(style.length, support64);
    ElementReadable(mem, e, n, w, flags.ArrayToArray?, k);
    ElementReadable(mem, a, n, w, true, k);
    EqualityIsByteEquality(ElementBytes(mem, e, k, w, flags.ArrayToArray?), ElementBytes(mem, a, k, w, true),
                           style, support64);
  }

  lemma NearElementByValue(mem: seq<octet>, delta: nat, e: nat, a: nat, style: Style, support64: bool, flags: Flags,
                           n: nat, k: nat)
    requires var w := Width(style.length, support64);
             Readable(mem, e, n, w, flags.ArrayToArray?) && Readable(mem, a, n, w, true) && k < n
    ensures var w := Width(style.length, support64);
            var x, y := At(e, k, w, flags.ArrayToArray?), At(a, k, w, true);
            && x + w <= |mem| && y + w <= |mem|
            && (NearElements(mem, delta, e, a, style, support64, flags, n)[k]
                <==> !ExceedsDelta(delta, HeldValue(mem[x..x + w], style, support64),
                                   HeldValue(mem[y..y + w], style, support64), style, IntLimit(support64)))
  {
    hide HeldValue, ExceedsDelta, Number, Width, Readable, At;
    var w := Width(style.length, support64);
    ElementReadable(mem, e, n, w, flags.ArrayToArray?, k);
    ElementReadable(mem, a, n, w, true, k);
    ExceedsDeltaIsExact(ElementBytes(mem, e, k, w, flags.ArrayToArray?), ElementBytes(mem, a, k, w, true),
                        delta, style, support64);
  }

  /* The report is the first element that is not all right, or a pass if there is none. */
  ghost predicate ReportsFirst(r: Report, good: seq<bool>) {
    match r
    case Passes => forall k :: 0 <= k < |good| ==> good[k]
    case Element(i) => i < |good| && !good[i] && forall k :: 0 <= k < i ==> good[k]
    case _ => false
  }

  class Unity {
    const support64: bool
    var currentTestFailed: bool
    var currentTestIgnored: bool

    constructor (support64: bool)
      ensures this.support64 == support64 && !currentTestFailed && !currentTestIgnored
    {
      this.support64 := support64;
      currentTestFailed, currentTestIgnored := false, false;
    }

    ghost predicate IsSigned(x: int) {
      -(IntLimit(support64) / 2) <= x < IntLimit(support64) / 2
    }

    /* UnityAssertIntNumbersWithin: fails exactly when the distance exceeds delta. */
    method AssertIntNumbersWithin(delta: nat, expected: int, actual: int) returns (r: Report)
      requires IsSigned(expected) && IsSigned(actual)
      modifies this
      ensures old(currentTestFailed || currentTestIgnored) ==>
                r == Aborts && currentTestFailed == old(currentTestFailed)
      ensures !old(currentTestFailed || currentTestIgnored) ==>
                && currentTestFailed == (Distance(expected, actual) > delta)
                && r == if currentTestFailed then Element(0) else Passes
      ensures currentTestIgnored == old(currentTestIgnored)
    {
      hide WrappedDifference;
      if currentTestFailed || currentTestIgnored {
        return Aborts;
      }
      var limit := IntLimit(support64);
      if actual > expected {
        WrappedDifferenceIsDistance(actual, expected, limit);
        currentTestFailed := WrappedDifference(actual, expected, limit) > delta;
      } else {
        WrappedDifferenceIsDistance(expected, actual, limit);
        currentTestFailed := WrappedDifference(expected, actual, limit) > delta;
      }
      r := if currentTestFailed then Element(0) else Passes;
    }

    /* UnityAssertUintNumbersWithin */
    method AssertUintNumbersWithin(delta: nat, expected: nat, actual: nat) returns (r: Report)
      requires expected < IntLimit(support64) && actual < IntLimit(support64)
      modifies this
      ensures old(currentTestFailed || currentTestIgnored) ==>
                r == Aborts && currentTestFailed == old(currentTestFailed)
      ensures !old(currentTestFailed || currentTestIgnored) ==>
                && currentTestFailed == (Distance(expected, actual) > delta)
                && r == if currentTestFailed then Element(0) else Passes
      ensures currentTestIgnored == old(currentTestIgnored)
    {
      hide WrappedDifference;
      if currentTestFailed || currentTestIgnored {
        return Aborts;
      }
      var limit := IntLimit(support64);
      if actual > expected {
        WrappedDifferenceIsDistance(actual, expected, limit);
        currentTestFailed := WrappedDifference(actual, expected, limit) > delta;
      } else {
        WrappedDifferenceIsDistance(expected, actual, limit);
        currentTestFailed := WrappedDifference(expected, actual, limit) > delta;
      }
      r := if currentTestFailed then Element(0) else Passes;
    }

    /* The checks that both array assertions start with; Element(0) stands for "go on". */
    method Precheck(expected: Pointer, actual: Pointer, n: nat) returns (r: Report)
      modifies `currentTestFailed
      ensures r == Prechecked(old(currentTestFailed || currentTestIgnored), expected, actual, n)
      ensures currentTestFailed == (old(currentTestFailed) || r == Pointless || r == NullPointer)
    {
      if currentTestFailed || currentTestIgnored {
        return Aborts;
      }
      if n == 0 {
        currentTestFailed := true;
        return Pointless;
      }
      if expected == actual {
        return Passes;
      }
      if expected == None || actual == None {
        currentTestFailed := true;
        return NullPointer;
      }
      r := Element(0);
    }

    /* UnityAssertEqualIntArray: of elements that are compared at all, the first that differs
       in any byte is reported, and the assertion passes if there is none. */
    method AssertEqualIntArray(mem: seq<octet>, expected: Pointer, actual: Pointer, n: nat, style: Style, flags: Flags)
        returns (r: Report)
      requires var w := Width(style.length, support64);
               && (expected.Some? ==> Readable(mem, expected.value, n, w, flags.ArrayToArray?))
               && (actual.Some? ==> Readable(mem, actual.value, n, w, true))
      modifies `currentTestFailed
      ensures var pre := Prechecked(old(currentTestFailed || currentTestIgnored), expected, actual, n);
              if !pre.Element? then r == pre
              else
                var w := Width(style.length, support64);
                ReportsFirst(r, SameElements(mem, expected.value, actual.value, w, flags, n))
      ensures currentTestFailed == (old(currentTestFailed) || !(r.Passes? || r.Aborts?))
    {
      hide SameElements, Readable;
      r := Precheck(expected, actual, n);
      if r.Element? {
        r := CompareElements(mem, expected.value, actual.value, n, style, flags);
      }
    }

    /* The element loop of UnityAssertEqualIntArray. */
    method CompareElements(mem: seq<octet>, expected: nat, actual: nat, n: nat, style: Style, flags: Flags)
        returns (r: Report)
      requires var w := Width(style.length, support64);
               Readable(mem, expected, n, w, flags.ArrayToArray?) && Readable(mem, actual, n, w, true)
      requires !currentTestFailed
      modifies `currentTestFailed
      ensures ReportsFirst(r, SameElements(mem, expected, actual, Width(style.length, support64), flags, n))
      ensures currentTestFailed <==> r.Element?
    {
      hide At, EqualityValue, Readable, SameElements, Width;
      var w := Width(style.length, support64);
      AtNext(expected, 0, w, flags.ArrayToArray?);
      AtNext(actual, 0, w, true);
      ghost var good := SameElements(mem, expected, actual, w, flags, n);
      var e, a, elements := expected, actual, n;
      while elements > 0
        invariant 0 <= elements <= n
        invariant a == At(actual, n - elements, w, true)
        invariant e == At(expected, n - elements, w, flags.ArrayToArray?)
        invariant forall k :: 0 <= k < n - elements ==> good[k]
        invariant !currentTestFailed
      {
        ghost var k := n - elements;
        elements := elements - 1;
        AtNext(expected, k, w, flags.ArrayToArray?);
        AtNext(actual, k, w, true);
        SameElementByValue(mem, expected, actual, style, support64, flags, n, k);
        if EqualityValue(mem[e..e + w], style, support64) != EqualityValue(mem[a..a + w], style, support64) {
          currentTestFailed := true;
          return Element(n - elements - 1);
        }
        if flags.ArrayToArray? {
          e := e + w;
        }
        a := a + w;
      }
      r := Passes;
    }

    /* UnityAssertNumbersArrayWithin: the first element further than delta away is reported. */
    method AssertNumbersArrayWithin(mem: seq<octet>, delta: nat, expected: Pointer, actual: Pointer, n: nat,
                                    style: Style, flags: Flags)
        returns (r: Report)
      requires var w := Width(style.length, support64);
               && (expected.Some? ==> Readable(mem, expected.value, n, w, flags.ArrayToArray?))
               && (actual.Some? ==> Readable(mem, actual.value, n, w, true))
      modifies `currentTestFailed
      ensures var pre := Prechecked(old(currentTestFailed || currentTestIgnored), expected, actual, n);
              if !pre.Element? then r == pre
              else
                ReportsFirst(r, NearElements(mem, delta, expected.value, actual.value, style, support64, flags, n))
      ensures currentTestFailed == (old(currentTestFailed) || !(r.Passes? || r.Aborts?))
    {
      hide NearElements, Readable;
      r := Precheck(expected, actual, n);
      if r.Element? {
        r := CompareDistances(mem, delta, expected.value, actual.value, n, style, flags);
      }
    }

    /* The element loop of UnityAssertNumbersArrayWithin. */
    method CompareDistances(mem: seq<octet>, delta: nat, expected: nat, actual: nat, n: nat, style: Style, flags: Flags)
        returns (r: Report)
      requires var w := Width(style.length, support64);
               Readable(mem, expected, n, w, flags.ArrayToArray?) && Readable(mem, actual, n, w, true)
      requires !currentTestFailed
      modifies `currentTestFailed
      ensures ReportsFirst(r, NearElements(mem, delta, expected, actual, style, support64, flags, n))
      ensures currentTestFailed <==> r.Element?
    {
      hide At, HeldValue, ExceedsDelta, Readable, NearElements, Width, IntLimit;
      var w := Width(style.length, support64);
      AtNext(expected, 0, w, flags.ArrayToArray?);
      AtNext(actual, 0, w, true);
      ghost var good := NearElements(mem, delta, expected, actual, style, support64, flags, n);
      var e, a, elements := expected, actual, n;
      while elements > 0
        invariant 0 <= elements <= n
        invariant a == At(actual, n - elements, w, true)
        invariant e == At(expected, n - elements, w, flags.ArrayToArray?)
        invariant forall k :: 0 <= k < n - elements ==> good[k]
        invariant !currentTestFailed
      {
        ghost var k := n - elements;
        elements := elements - 1;
        AtNext(expected, k, w, flags.ArrayToArray?);
        AtNext(actual, k, w, true);
        NearElementByValue(mem, delta, expected, actual, style, support64, flags, n, k);
        currentTestFailed := ExceedsDelta(delta, HeldValue(mem[e..e + w], style, support64),
                                          HeldValue(mem[a..a + w], style, support64), style, IntLimit(support64));
        if currentTestFailed {
          return Element(n - elements - 1);
        }
        if flags.ArrayToArray? {
          e := e + w;
        }
        a := a + w;
      }
      r := Passes;
    }
  }

  /* The outcome before any element is looked at; Element(0) if elements are to be compared. */
  function Prechecked(hasVerdict: bool, expected: Pointer, actual: Pointer, n: nat): Report {
    if hasVerdict then Aborts
    else if n == 0 then Pointless
    else if expected == actual then Passes
    else if expected == None || actual == None then NullPointer
    else Element(0)
  }

  /* A test that has a verdict is left alone. Otherwise no elements and just one NULL pointer
     fail it, two NULL pointers or one pointer twice pass, and elements are looked at in all
     other cases. */
  lemma PrecheckOutcomes(hasVerdict: bool, p: nat, q: nat, n: nat, x: Pointer, y: Pointer)
    ensures Prechecked(true, x, y, n) == Aborts
    ensures Prechecked(false, x, y, 0) == Pointless
    ensures n > 0 ==> Prechecked(false, Some(p), None, n) == Prechecked(false, None, Some(q), n) == NullPointer
    ensures n > 0 ==> Prechecked(false, None, None, n) == Prechecked(false, Some(p), Some(p), n) == Passes
    ensures n > 0 && p != q ==> Prechecked(false, Some(p), Some(q), n) == Element(0)
  {
  }

  //////////////////////////////////////////////////////////////////////////////
  // What the numbers and the elements are
  //////////////////////////////////////////////////////////////////////////////

  /* One, two and eight bytes for these lengths, the last with 64-bit support only; four bytes
     for every other. */
  lemma WidthByLength(length: nat)
    ensures Width(length, true) == if length in [1, 2, 8] then length else 4
    ensures Width(length, false) == if length in [1, 2] then length else 4
  {
  }

  lemma LimitOfWidth(w: nat)
    requires w == 1 || w == 2 || w == 4 || w == 8
    ensures WidthLimit(w) == Limit(w)
  {
  }

  /* The number x is stored in w bytes as x modulo 256^w, also if it is negative. */
  function Stored(x: int, w: nat): (b: seq<octet>)
    ensures |b| == w
  {
    Encode(x % Limit(w), w)
  }

  /* Reading a stored number back gives that number, for every one that a style can show at
     its width: two's complement for signed styles. */
  lemma NumberReadBack(x: int, style: Style, support64: bool)
    requires var limit := Limit(Width(style.length, support64));
             if style.range.Int? then 0 <= 2 * x + limit < 2 * limit else 0 <= x < limit
    ensures Number(Stored(x, Width(style.length, support64)), style, support64) == x
  {
    hide Width, Encode, Decode;
    var w := Width(style.length, support64);
    LimitOfWidth(w);
    DecodeEncode(x % Limit(w), w);
    SignedModulo(x, Limit(w));
  }

  lemma SignedModulo(x: int, limit: nat)
    requires limit > 0 && 0 <= 2 * x + limit && x < limit
    ensures x % limit == if x < 0 then x + limit else x
    ensures limit % 2 == 0 && 2 * x < limit ==> ToSigned(x % limit, limit) == x
    ensures ToUnsigned(x, limit) == x % limit
  {
    var y := if x < 0 then x + limit else x;
    DivModUnique(y, 0, y, limit);
    if x < 0 {
      ModuloShift(x, limit);
    }
  }

  lemma ModuloShift(x: int, limit: nat)
    requires limit > 0 && x < 0 && 0 <= x + limit
    ensures x % limit == (x + limit) % limit
  {
  }

  /* The equality assertion holds the same number, except that at full width an unsigned one
     is held as the signed number with the same bytes. */
  lemma EqualityReadBack(x: int, style: Style, support64: bool)
    requires var limit := Limit(Width(style.length, support64));
             if style.range.Int? then 0 <= 2 * x + limit < 2 * limit else 0 <= x < limit
    ensures var w := Width(style.length, support64);
            EqualityValue(Stored(x, w), style, support64)
            == if !style.range.Int? && Limit(w) == IntLimit(support64) && 2 * x >= Limit(w) then x - Limit(w) else x
  {
    hide Width, Encode, Decode;
    var w := Width(style.length, support64);
    LimitOfWidth(w);
    DecodeEncode(x % Limit(w), w);
    SignedModulo(x, Limit(w));
  }

  /* The elements that are compared, by their addresses. */
  lemma ElementByAddress(mem: seq<octet>, e: nat, a: nat, w: nat, flags: Flags, n: nat, k: nat)
    requires Readable(mem, e, n, w, flags.ArrayToArray?) && Readable(mem, a, n, w, true) && k < n
    ensures var x := if flags.ArrayToArray? then e + k * w else e;
            && x + w <= |mem| && a + k * w + w <= |mem|
            && (SameElement(mem, e, a, w, flags, n, k) <==> mem[x..x + w] == mem[a + k * w..a + k * w + w])
  {
    hide Readable;
    ElementReadable(mem, e, n, w, flags.ArrayToArray?, k);
    ElementReadable(mem, a, n, w, true, k);
  }

  /* Whether an element passes the tolerance test, by the numbers stored at its addresses. */
  lemma NearByNumbers(mem: seq<octet>, delta: nat, e: nat, a: nat, style: Style, support64: bool, flags: Flags,
                      n: nat, k: nat, x: int, y: int)
    requires var w := Width(style.length, support64);
             Readable(mem, e, n, w, flags.ArrayToArray?) && Readable(mem, a, n, w, true) && k < n
    requires var limit := Limit(Width(style.length, support64));
             if style.range.Int? then 0 <= 2 * x + limit < 2 * limit && 0 <= 2 * y + limit < 2 * limit
             else 0 <= x < limit && 0 <= y < limit
    ensures var w := Width(style.length, support64);
            var p := if flags.ArrayToArray? then e + k * w else e;
            && p + w <= |mem| && a + k * w + w <= |mem|
            && (mem[p..p + w] == Stored(x, w) && mem[a + k * w..a + k * w + w] == Stored(y, w) ==>
                  (NearElement(mem, delta, e, a, style, support64, flags, n, k) <==> x - y <= delta && y - x <= delta))
  {
    hide Readable, Width, Number, Stored;
    ElementReadable(mem, e, n, Width(style.length, support64), flags.ArrayToArray?, k);
    ElementReadable(mem, a, n, Width(style.length, support64), true, k);
    NumberReadBack(x, style, support64);
    NumberReadBack(y, style, support64);
  }

  /* The m bytes at e are the m bytes at a. */
  ghost predicate SameBytes(mem: seq<octet>, e: nat, a: nat, m: nat) {
    e + m <= |mem| && a + m <= |mem| && mem[e..e + m] == mem[a..a + m]
  }

  lemma SameBytesLonger(mem: seq<octet>, e: nat, a: nat, m: nat, w: nat)
    requires e + m + w <= |mem| && a + m + w <= |mem|
    ensures SameBytes(mem, e, a, m + w) <==> SameBytes(mem, e, a, m) && SameBytes(mem, e + m, a + m, w)
  {
    assert mem[e..e + m + w] == mem[e..e + m] + mem[e + m..e + m + w];
    assert mem[a..a + m + w] == mem[a..a + m] + mem[a + m..a + m + w];
    ConcatSame(mem[e..e + m], mem[e + m..e + m + w], mem[a..a + m], mem[a + m..a + m + w]);
  }

  /* In array mode, elements before k are the same exactly if the memory up to there is, ... */
  lemma {:induction false} SameUpTo(mem: seq<octet>, e: nat, a: nat, w: nat, n: nat, k: nat)
    requires Readable(mem, e, n, w, true) && Readable(mem, a, n, w, true) && 0 < n && k <= n
    ensures (forall j :: 0 <= j < k ==> SameElement(mem, e, a, w, ArrayToArray, n, j))
       <==> SameBytes(mem, e, a, k * w)
    decreases k
  {
    hide SameElement, Readable, SameBytes;
    if k == 0 {
      NoBytesSame(mem, e, a, w, n);
    } else {
      SameUpTo(mem, e, a, w, n, k - 1);
      SameElementBytes(mem, e, a, w, n, k - 1);
      ProductPrevious(k, w);
      SameBytesLonger(mem, e, a, (k - 1) * w, w);
    }
  }

  lemma NoBytesSame(mem: seq<octet>, e: nat, a: nat, w: nat, n: nat)
    requires Readable(mem, e, n, w, true) && Readable(mem, a, n, w, true) && n > 0
    ensures SameBytes(mem, e, a, 0 * w)
  {
    MulOrder(0, n, w);
  }

  lemma SameElementBytes(mem: seq<octet>, e: nat, a: nat, w: nat, n: nat, k: nat)
    requires Readable(mem, e, n, w, true) && Readable(mem, a, n, w, true) && k < n
    ensures e + k * w + w <= |mem| && a + k * w + w <= |mem|
    ensures SameElement(mem, e, a, w, ArrayToArray, n, k) <==> SameBytes(mem, e + k * w, a + k * w, w)
  {
    hide SameElement, Readable;
    ElementByAddress(mem, e, a, w, ArrayToArray, n, k);
  }

  /* ... so the equality assertion on arrays is a memcmp that names the first element with a
     difference. */
  lemma EqualArraysAreMemcmp(mem: seq<octet>, e: nat, a: nat, w: nat, n: nat, i: nat)
    requires Readable(mem, e, n, w, true) && Readable(mem, a, n, w, true) && i < n
    ensures 0 <= i * w && 0 <= n * w
    ensures ReportsFirst(Passes, SameElements(mem, e, a, w, ArrayToArray, n)) <==> SameBytes(mem, e, a, n * w)
    ensures ReportsFirst(Element(i), SameElements(mem, e, a, w, ArrayToArray, n))
       <==> SameBytes(mem, e, a, i * w) && !SameBytes(mem, e + i * w, a + i * w, w)
  {
    hide SameElement, Readable, SameBytes;
    var good := SameElements(mem, e, a, w, ArrayToArray, n);
    assert forall k :: 0 <= k < n ==> good[k] == SameElement(mem, e, a, w, ArrayToArray, n, k);
    SameUpTo(mem, e, a, w, n, n);
    SameUpTo(mem, e, a, w, n, i);
    SameElementBytes(mem, e, a, w, n, i);
  }

  //////////////////////////////////////////////////////////////////////////////
  // The same pointer twice
  //////////////////////////////////////////////////////////////////////////////

  /* The array of n elements of w bytes at p repeats its first element: the bytes of all but
     the last are the bytes of all but the first. */
  predicate Constant(mem: seq<octet>, p: nat, n: nat, w: nat)
    requires n > 0 && Readable(mem, p, n, w, true)
  {
    ProductPrevious(n, w);
    mem[p..p + (n - 1) * w] == mem[p + w..p + n * w]
  }

  lemma ProductPrevious(n: nat, w: nat)
    requires n > 0
    ensures (n - 1) * w + w == n * w
  {
  }

  /* Comparing a range with the range w bytes on, w bytes longer. */
  lemma ShiftedLonger(mem: seq<octet>, lo: nat, hi: nat, w: nat)
    requires lo <= hi && hi + 2 * w <= |mem|
    ensures mem[lo..hi + w] == mem[lo + w..hi + 2 * w]
       <==> mem[lo..hi] == mem[lo + w..hi + w] && mem[hi..hi + w] == mem[hi + w..hi + 2 * w]
  {
    assert mem[lo..hi + w] == mem[lo..hi] + mem[hi..hi + w];
    assert mem[lo + w..hi + 2 * w] == mem[lo + w..hi + w] + mem[hi + w..hi + 2 * w];
    ConcatSame(mem[lo..hi], mem[hi..hi + w], mem[lo + w..hi + w], mem[hi + w..hi + 2 * w]);
  }

  /* One element more. */
  lemma ConstantLonger(mem: seq<octet>, p: nat, n: nat, w: nat)
    requires n > 0 && Readable(mem, p, n + 1, w, true)
    ensures Readable(mem, p, n, w, true) && At(p, n, w, true) + w <= |mem| && At(p, n - 1, w, true) + w <= |mem|
    ensures Constant(mem, p, n + 1, w)
       <==> Constant(mem, p, n, w) && ElementBytes(mem, p, n, w, true) == ElementBytes(mem, p, n - 1, w, true)
  {
    ProductPrevious(n, w);
    ProductPrevious(n + 1, w);
    ShiftedLonger(mem, p, p + (n - 1) * w, w);
  }

  /* All n elements have the bytes of the first. */
  ghost predicate AllSame(mem: seq<octet>, p: nat, n: nat, w: nat)
    requires n > 0 && Readable(mem, p, n, w, true) && Readable(mem, p, n, w, false)
  {
    forall k :: 0 <= k < n ==> SameElement(mem, p, p, w, ArrayToVal, n, k)
  }

  lemma {:induction false} ConstantIsAllSame(mem: seq<octet>, p: nat, n: nat, w: nat)
    requires n > 0 && Readable(mem, p, n, w, true) && Readable(mem, p, n, w, false)
    ensures Constant(mem, p, n, w) <==> AllSame(mem, p, n, w)
    decreases n
  {
    hide AllSame, Constant, Readable, At;
    if n == 1 {
      OneElement(mem, p, w);
    } else {
      ReadableShorter(mem, p, n - 1, w);
      ConstantLonger(mem, p, n - 1, w);
      ConstantIsAllSame(mem, p, n - 1, w);
      AllSameLonger(mem, p, n - 1, w);
    }
  }

  lemma OneElement(mem: seq<octet>, p: nat, w: nat)
    requires Readable(mem, p, 1, w, true) && Readable(mem, p, 1, w, false)
    ensures Constant(mem, p, 1, w) && AllSame(mem, p, 1, w)
  {
  }

  lemma ReadableShorter(mem: seq<octet>, p: nat, n: nat, w: nat)
    requires n > 0 && Readable(mem, p, n + 1, w, true)
    ensures Readable(mem, p, n, w, true) && Readable(mem, p, n, w, false)
  {
    ProductPrevious(n + 1, w);
    MulOrder(0, n, w);
  }

  lemma AllSameLonger(mem: seq<octet>, p: nat, n: nat, w: nat)
    requires n > 0 && Readable(mem, p, n, w, true) && Readable(mem, p, n, w, false)
    requires Readable(mem, p, n + 1, w, true) && Readable(mem, p, n + 1, w, false)
    requires At(p, n, w, true) + w <= |mem| && At(p, n - 1, w, true) + w <= |mem|
    ensures AllSame(mem, p, n + 1, w)
       <==> AllSame(mem, p, n, w) && ElementBytes(mem, p, n, w, true) == ElementBytes(mem, p, n - 1, w, true)
  {
    hide Readable, At, SameElement;
    ElementIsFirst(mem, p, n, w, n - 1);
    ElementIsFirst(mem, p, n + 1, w, n);
    forall k | 0 <= k < n
      ensures SameElement(mem, p, p, w, ArrayToVal, n, k) <==> SameElement(mem, p, p, w, ArrayToVal, n + 1, k)
    {
      ElementIsFirst(mem, p, n, w, k);
      ElementIsFirst(mem, p, n + 1, w, k);
    }
    assert AllSame(mem, p, n + 1, w) ==> SameElement(mem, p, p, w, ArrayToVal, n + 1, n);
    assert AllSame(mem, p, n + 1, w) ==> AllSame(mem, p, n, w);
    assert AllSame(mem, p, n, w) ==> SameElement(mem, p, p, w, ArrayToVal, n, n - 1);
    if AllSame(mem, p, n, w) && SameElement(mem, p, p, w, ArrayToVal, n + 1, n) {
      var m := n + 1;
      forall k | 0 <= k < m
        ensures SameElement(mem, p, p, w, ArrayToVal, m, k)
      {
        if k < n {
          assert SameElement(mem, p, p, w, ArrayToVal, n, k);
        }
      }
    }
  }

  lemma ElementIsFirst(mem: seq<octet>, p: nat, n: nat, w: nat, k: nat)
    requires k < n && Readable(mem, p, n, w, true) && Readable(mem, p, n, w, false)
    ensures p + w <= |mem| && At(p, k, w, true) + w <= |mem|
    ensures SameElement(mem, p, p, w, ArrayToVal, n, k) <==> mem[p..p + w] == ElementBytes(mem, p, k, w, true)
  {
    ElementReadable(mem, p, n, w, true, k);
  }

  /* What the report should have been in value mode, for the very array that holds the value:
     a pass is right if and only if the array repeats its first element. UnityNumToPtr gives
     the EACH_EQUAL macros the address of a static of its own, so only a direct call has such
     pointers. */
  lemma PassOnSamePointerIsExact(mem: seq<octet>, p: nat, n: nat, style: Style, support64: bool, flags: Flags)
    requires var w := Width(style.length, support64);
             n > 0 && Readable(mem, p, n, w, true) && Readable(mem, p, n, w, flags.ArrayToArray?)
    ensures Prechecked(false, Some(p), Some(p), n) == Passes
    ensures var w := Width(style.length, support64);
            ReportsFirst(Passes, SameElements(mem, p, p, w, flags, n))
            <==> flags.ArrayToArray? || Constant(mem, p, n, w)
  {
    hide Readable, Constant, SameElement, Width;
    var w := Width(style.length, support64);
    if flags.ArrayToArray? {
      forall k | 0 <= k < n
        ensures SameElement(mem, p, p, w, flags, n, k)
      {
        SamePointerSameElements(mem, p, style, support64, n, k);
      }
    } else {
      ConstantIsAllSame(mem, p, n, w);
      var good := SameElements(mem, p, p, w, flags, n);
      assert forall k :: 0 <= k < n ==> good[k] == SameElement(mem, p, p, w, flags, n, k);
    }
  }

  /* The number of element k. */
  function NumberAt(mem: seq<octet>, p: nat, n: nat, style: Style, support64: bool, k: nat): int
    requires k < n && Readable(mem, p, n, Width(style.length, support64), true)
  {
    ElementReadable(mem, p, n, Width(style.length, support64), true, k);
    Number(ElementBytes(mem, p, k, Width(style.length, support64), true), style, support64)
  }

  /* The largest and the smallest number among the first m of n elements. */
  function Largest(mem: seq<octet>, p: nat, n: nat, style: Style, support64: bool, m: nat): int
    requires 0 < m <= n && Readable(mem, p, n, Width(style.length, support64), true)
    decreases m
  {
    var x := NumberAt(mem, p, n, style, support64, m - 1);
    if m == 1 then x
    else
      var y := Largest(mem, p, n, style, support64, m - 1);
      if x > y then x else y
  }

  function Smallest(mem: seq<octet>, p: nat, n: nat, style: Style, support64: bool, m: nat): int
    requires 0 < m <= n && Readable(mem, p, n, Width(style.length, support64), true)
    decreases m
  {
    var x := NumberAt(mem, p, n, style, support64, m - 1);
    if m == 1 then x
    else
      var y := Smallest(mem, p, n, style, support64, m - 1);
      if x < y then x else y
  }

  /* No number is further than delta from v exactly if neither extreme is. */
  lemma {:induction false} ExtremesDecide(mem: seq<octet>, p: nat, n: nat, style: Style, support64: bool, m: nat,
                                          v: int, delta: nat)
    requires 0 < m <= n && Readable(mem, p, n, Width(style.length, support64), true)
    ensures Smallest(mem, p, n, style, support64, m) <= Largest(mem, p, n, style, support64, m)
    ensures (forall k :: 0 <= k < m ==> Distance(v, NumberAt(mem, p, n, style, support64, k)) <= delta)
       <==> && Largest(mem, p, n, style, support64, m) <= v + delta
            && v - delta <= Smallest(mem, p, n, style, support64, m)
    decreases m
  {
    hide NumberAt, Readable, Width;
    if m > 1 {
      ExtremesDecide(mem, p, n, style, support64, m - 1, v, delta);
    }
  }

  /* Likewise with a tolerance: a pass is right if and only if the largest and the smallest
     number of the array are at most delta away from the first. */
  lemma PassOnSamePointerWithin(mem: seq<octet>, delta: nat, p: nat, n: nat, style: Style, support64: bool,
                                flags: Flags)
    requires var w := Width(style.length, support64);
             n > 0 && Readable(mem, p, n, w, true) && Readable(mem, p, n, w, flags.ArrayToArray?)
    ensures Prechecked(false, Some(p), Some(p), n) == Passes
    ensures var first := NumberAt(mem, p, n, style, support64, 0);
            ReportsFirst(Passes, NearElements(mem, delta, p, p, style, support64, flags, n))
            <==> || flags.ArrayToArray?
                 || (&& Largest(mem, p, n, style, support64, n) <= first + delta
                     && first - delta <= Smallest(mem, p, n, style, support64, n))
  {
    hide Readable, Width, NearElement, Number, NumberAt, Largest, Smallest;
    var good := NearElements(mem, delta, p, p, style, support64, flags, n);
    assert forall k :: 0 <= k < n ==> good[k] == NearElement(mem, delta, p, p, style, support64, flags, n, k);
    if flags.ArrayToArray? {
      forall k | 0 <= k < n
        ensures NearElement(mem, delta, p, p, style, support64, flags, n, k)
      {
        SamePointerSameElements(mem, p, style, support64, n, k);
      }
    } else {
      var first := NumberAt(mem, p, n, style, support64, 0);
      forall k | 0 <= k < n
        ensures NearElement(mem, delta, p, p, style, support64, flags, n, k)
           <==> Distance(first, NumberAt(mem, p, n, style, support64, k)) <= delta
      {
        NearIsFirst(mem, delta, p, n, style, support64, k);
      }
      ExtremesDecide(mem, p, n, style, support64, n, first, delta);
    }
  }

  lemma NearIsFirst(mem: seq<octet>, delta: nat, p: nat, n: nat, style: Style, support64: bool, k: nat)
    requires k < n
    requires var w := Width(style.length, support64); Readable(mem, p, n, w, true) && Readable(mem, p, n, w, false)
    ensures NearElement(mem, delta, p, p, style, support64, ArrayToVal, n, k)
       <==> Distance(NumberAt(mem, p, n, style, support64, 0), NumberAt(mem, p, n, style, support64, k)) <= delta
  {
    hide Number, Width, Readable;
    ElementReadable(mem, p, n, Width(style.length, support64), true, 0);
    ElementReadable(mem, p, n, Width(style.length, support64), true, k);
  }

  /* When both pointers are walked, a pass without a look is right for any tolerance. */
  lemma SamePointerSameElements(mem: seq<octet>, p: nat, style: Style, support64: bool, n: nat, k: nat)
    requires Readable(mem, p, n, Width(style.length, support64), true) && k < n
    ensures SameElement(mem, p, p, Width(style.length, support64), ArrayToArray, n, k)
    ensures forall delta: nat :: NearElement(mem, delta, p, p, style, support64, ArrayToArray, n, k)
  {
    hide Number, Readable, At;
  }

  /* An array that does not repeat its first element. */
  lemma SamePointerValueNotCompared()
    ensures var mem: seq<octet> := [1, 2];
            && Readable(mem, 0, 2, 1, true)
            && Prechecked(false, Some(0), Some(0), 2) == Passes
            && !Constant(mem, 0, 2, 1) && !SameElement(mem, 0, 0, 1, ArrayToVal, 2, 1)
  {
    var mem: seq<octet> := [1, 2];
    assert mem[0..1][0] == 1 && mem[1..2][0] == 2;
    assert ElementBytes(mem, 0, 1, 1, true) == mem[1..2] && ElementBytes(mem, 0, 1, 1, false) == mem[0..1];
  }
}
