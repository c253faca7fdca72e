/**
 * JavaScript string semantics the application relies on: the relational
 * operator `<` on strings (lexicographic on UTF-16 code units) and
 * `String.prototype.trim`.
 *
 * Dafny's `string` is a sequence of Unicode scalar values, while a
 * JavaScript string is a sequence of UTF-16 code units. The two orders
 * differ for characters outside the Basic Multilingual Plane, so `Less`
 * first encodes both operands to UTF-16 and compares the code units.
 */
module JsString {

  /** A UTF-16 code unit. */
  type CodeUnit = x: int | 0 <= x < 0x1_0000

  /** The UTF-16 encoding of one Unicode scalar value: one code unit, or a surrogate pair. */
  function CodeUnits(c: char): (u: seq<CodeUnit>)
    ensures |u| == 1 || |u| == 2
    ensures |u| == 1 <==> (c as int) < 0x1_0000
    ensures |u| == 1 ==> u[0] == c as int && !(0xD800 <= u[0] < 0xDC00)
    ensures |u| == 2 ==> 0xD800 <= u[0] < 0xDC00 && 0xDC00 <= u[1] < 0xE000
  {
    if (c as int) < 0x1_0000 then [c as int]
    else
      var v := c as int - 0x1_0000;
      [0xD800 + v / 0x400, 0xDC00 + v % 0x400]
  }

  /** The UTF-16 code units of a string, as JavaScript stores it. */
  function Utf16(s: string): (u: seq<CodeUnit>)
    ensures |s| <= |u| <= 2 * |s|
  {
    if |s| == 0 then [] else CodeUnits(s[0]) + Utf16(s[1..])
  }

  /** Two characters whose UTF-16 encodings agree are the same character. */
  lemma CodeUnitsInjective(a: char, b: char)
    requires CodeUnits(a) == CodeUnits(b)
    ensures a == b
  {
    if (a as int) >= 0x1_0000 {
      var va, vb := a as int - 0x1_0000, b as int - 0x1_0000;
      assert va / 0x400 == vb / 0x400 && va % 0x400 == vb % 0x400;
      assert va == 0x400 * (va / 0x400) + va % 0x400;
      assert vb == 0x400 * (vb / 0x400) + vb % 0x400;
    }
  }

  /** UTF-16 encoding loses nothing: distinct strings have distinct encodings. */
  lemma {:induction false} Utf16Injective(a: string, b: string)
    requires Utf16(a) == Utf16(b)
    ensures a == b
    decreases |a|
  {
    if |a| == 0 || |b| == 0 {
    } else {
      var ua, ub := CodeUnits(a[0]), CodeUnits(b[0]);
      var ea, eb := Utf16(a), Utf16(b);
      assert ea == ua + Utf16(a[1..]);
      assert eb == ub + Utf16(b[1..]);
      assert ea[0] == ua[0] && eb[0] == ub[0];
      // The first code unit tells whether a surrogate pair follows.
      assert |ua| == |ub|;
      if |ua| == 2 {
        assert ea[1] == ua[1] && eb[1] == ub[1];
      }
      assert ua == ea[..|ua|] == eb[..|ub|] == ub;
      CodeUnitsInjective(a[0], b[0]);
      assert Utf16(a[1..]) == ea[|ua|..] == eb[|ub|..] == Utf16(b[1..]);
      Utf16Injective(a[1..], b[1..]);
      assert a == [a[0]] + a[1..];
      assert b == [b[0]] + b[1..];
    }
  }

  /** Strict lexicographic order on code-unit sequences: a proper prefix comes first. */
  predicate LexLess(a: seq<CodeUnit>, b: seq<CodeUnit>)
  {
    if |b| == 0 then false
    else if |a| == 0 then true
    else if a[0] != b[0] then a[0] < b[0]
    else LexLess(a[1..], b[1..])
  }

  lemma {:induction false} LexLessIrreflexive(a: seq<CodeUnit>)
    ensures !LexLess(a, a)
    decreases |a|
  {
    if |a| > 0 {
      LexLessIrreflexive(a[1..]);
    }
  }

  lemma {:induction false} LexLessTransitive(a: seq<CodeUnit>, b: seq<CodeUnit>, c: seq<CodeUnit>)
    requires LexLess(a, b) && LexLess(b, c)
    ensures LexLess(a, c)
    decreases |a|
  {
    if |a| > 0 && a[0] == b[0] && b[0] == c[0] {
      LexLessTransitive(a[1..], b[1..], c[1..]);
    }
  }

  lemma {:induction false} LexLessTrichotomy(a: seq<CodeUnit>, b: seq<CodeUnit>)
    ensures a == b || LexLess(a, b) || LexLess(b, a)
    ensures !(LexLess(a, b) && LexLess(b, a))
    decreases |a|
  {
    if |a| > 0 && |b| > 0 && a[0] == b[0] {
      LexLessTrichotomy(a[1..], b[1..]);
      if a[1..] == b[1..] {
        assert a == [a[0]] + a[1..] && b == [b[0]] + b[1..];
      }
    }
  }

  /** JavaScript's `a < b` on two strings. */
  predicate Less(a: string, b: string)
  {
    LexLess(Utf16(a), Utf16(b))
  }

  /** `Less` is a strict total order on strings: the property canonical pair ordering depends on. */
  lemma LessStrictTotalOrder(a: string, b: string, c: string)
    ensures !Less(a, a)
    ensures Less(a, b) ==> !Less(b, a)
    ensures Less(a, b) && Less(b, c) ==> Less(a, c)
    ensures a != b ==> Less(a, b) || Less(b, a)
  {
    LexLessIrreflexive(Utf16(a));
    LexLessTrichotomy(Utf16(a), Utf16(b));
    if Less(a, b) && Less(b, c) {
      LexLessTransitive(Utf16(a), Utf16(b), Utf16(c));
    }
    if a != b && Utf16(a) == Utf16(b) {
      Utf16Injective(a, b);
    }
  }

  /** JavaScript's `a <= b` on strings, which for strings means `a < b || a == b`. */
  predicate LessEq(a: string, b: string)
  {
    Less(a, b) || a == b
  }

  /**
   * The JavaScript order is not the code-point order: U+1F600 is encoded with
   * the high surrogate 0xD83D, which sorts below U+FF61.
   */
  lemma SupplementaryCharsSortBelowHighBmp()
    ensures Less("\U{1F600}", "\U{FF61}")
    ensures ('\U{1F600}' as int) > ('\U{FF61}' as int)
  {
  }

  /** The characters `String.prototype.trim` removes: WhiteSpace and LineTerminator of ECMA-262. */
  predicate IsWhiteSpace(c: char)
  {
    var x := c as int;
    || 0x09 <= x <= 0x0D                      // TAB, LF, VT, FF, CR
    || x == 0x20 || x == 0xA0 || x == 0x1680  // SPACE, NO-BREAK SPACE, OGHAM SPACE MARK
    || 0x2000 <= x <= 0x200A                  // EN QUAD .. HAIR SPACE
    || x == 0x2028 || x == 0x2029             // LINE / PARAGRAPH SEPARATOR
    || x == 0x202F || x == 0x205F || x == 0x3000
    || x == 0xFEFF                            // ZERO WIDTH NO-BREAK SPACE (BOM)
  }

  /** Index of the first non-white-space character at or after `k`, or `|s|`. */
  function SkipLeading(s: string, k: nat): (i: nat)
    requires k <= |s|
    ensures k <= i <= |s|
    ensures forall m :: k <= m < i ==> IsWhiteSpace(s[m])
    ensures i < |s| ==> !IsWhiteSpace(s[i])
    decreases |s| - k
  {
    if k == |s| || !IsWhiteSpace(s[k]) then k else SkipLeading(s, k + 1)
  }

  /** One past the last non-white-space character before `j` and at or after `lo`, or `lo`. */
  function SkipTrailing(s: string, lo: nat, j: nat): (e: nat)
    requires lo <= j <= |s|
    ensures lo <= e <= j
    ensures forall m :: e <= m < j ==> IsWhiteSpace(s[m])
    ensures e > lo ==> !IsWhiteSpace(s[e - 1])
    decreases j
  {
    if j == lo || !IsWhiteSpace(s[j - 1]) then j else SkipTrailing(s, lo, j - 1)
  }

  /** JavaScript's `s.trim()`: `s` without leading and trailing white space. */
  function Trim(s: string): (r: string)
    ensures exists i, j :: 0 <= i <= j <= |s| && r == s[i..j]
                           && (forall m :: 0 <= m < i ==> IsWhiteSpace(s[m]))
                           && (forall m :: j <= m < |s| ==> IsWhiteSpace(s[m]))
    ensures |r| > 0 ==> !IsWhiteSpace(r[0]) && !IsWhiteSpace(r[|r| - 1])
    ensures |r| == 0 <==> forall m :: 0 <= m < |s| ==> IsWhiteSpace(s[m])
  {
    var i := SkipLeading(s, 0);
    var j := SkipTrailing(s, i, |s|);
    s[i..j]
  }

  /** Trimming twice is trimming once. */
  lemma TrimIdempotent(s: string)
    ensures Trim(Trim(s)) == Trim(s)
  {
    var t := Trim(s);
    if |t| > 0 {
      assert SkipLeading(t, 0) == 0;
      assert SkipTrailing(t, 0, |t|) == |t|;
      assert t[0..|t|] == t;
    }
  }
}
