/** The pieces of java.lang and java.util.Objects the entities lean on:
    nullable references, 32-bit int arithmetic, the hashCode recipes of
    String, Long and Objects.hash, and decimal rendering of ids in messages. */
module JavaLang {

  /** A nullable reference: `None` models Java's null. */
  datatype Option<+T> = None | Some(value: T) {
    function GetOr(default: T): T {
      match this
      case Some(v) => v
      case None => default
    }
  }

  /** Store ids are non-negative; the store hands them out from 1 upwards. */
  type Id = nat

  /** A java.lang.Long field that holds an id or is still null. */
  type Long = Option<Id>

  /** The argument of an `equals(Object o)` call: null, an instance of the
      same class, or an instance of some other class. */
  datatype JavaRef<T> = Null | Instance(obj: T) | OtherClass

  const INT_MIN: int := -0x8000_0000
  const INT_MAX: int := 0x7FFF_FFFF
  const TWO_32: int := 0x1_0000_0000
  const TWO_64: int := 0x1_0000_0000_0000_0000

  predicate IsInt(x: int) {
    INT_MIN <= x <= INT_MAX
  }

  /** Narrowing to a Java `int`: keep the low 32 bits, read them as two's complement. */
  function ToInt(x: int): (r: int)
    ensures IsInt(r)
    ensures (x - r) % TWO_32 == 0
    ensures IsInt(x) ==> r == x
  {
    var low := (x - INT_MIN) % TWO_32;
    low + INT_MIN
  }

  /** String.hashCode: h = 31 * h + c over the characters, in int arithmetic.
      A Dafny char is a Unicode scalar value, so a character outside the
      Basic Multilingual Plane counts once here where Java hashes its two
      UTF-16 surrogates. */
  function StringHashCode(s: string): (h: int)
    ensures IsInt(h)
    ensures s == [] ==> h == 0
  {
    if s == [] then 0
    else ToInt(31 * StringHashCode(s[..|s| - 1]) + (s[|s| - 1] as int))
  }

  /** Long.hashCode: (int)(value ^ (value >>> 32)). */
  function LongValueHashCode(v: Id): (h: int)
    ensures IsInt(h)
    ensures v < 0x8000_0000 ==> h == v
  {
    if v < 0x8000_0000 then v
    else
      var b := (v % TWO_64) as bv64;
      var folded := (b ^ (b >> 32)) & 0xFFFF_FFFF;
      ToInt(folded as int)
  }

  /** The contribution of a nullable Long to Objects.hash: 0 for null. */
  function LongHashCode(v: Long): (h: int)
    ensures IsInt(h)
  {
    match v
    case None => 0
    case Some(x) => LongValueHashCode(x)
  }

  /** Objects.hash(a) for one argument whose hash code is `a`. */
  function ObjectsHash1(a: int): (h: int)
    ensures IsInt(h)
  {
    ToInt(31 + a)
  }

  /** Objects.hash(a, b) for two arguments with hash codes `a` and `b`. */
  function ObjectsHash2(a: int, b: int): (h: int)
    ensures IsInt(h)
  {
    ToInt(31 * ToInt(31 + a) + b)
  }

  // ---------------------------------------------------------------------
  // Decimal rendering of ids, as string concatenation of a Long does it.
  // ---------------------------------------------------------------------

  predicate IsDigit(c: char) {
    '0' <= c <= '9'
  }

  predicate IsDecimal(s: string) {
    |s| > 0 && forall i :: 0 <= i < |s| ==> IsDigit(s[i])
  }

  function DigitChar(d: nat): (c: char)
    requires d < 10
    ensures IsDigit(c)
  {
    ['0', '1', '2', '3', '4', '5', '6', '7', '8', '9'][d]
  }

  function DigitValue(c: char): (d: nat)
    requires IsDigit(c)
    ensures d < 10
  {
    (c as int) - ('0' as int)
  }

  /** Long.toString of a non-negative value. */
  function DecimalText(n: nat): (s: string)
    ensures IsDecimal(s)
  {
    if n < 10 then [DigitChar(n)]
    else DecimalText(n / 10) + [DigitChar(n % 10)]
  }

  /** The value a string of decimal digits denotes: the inverse of DecimalText. */
  function DecimalValue(s: string): nat
    requires forall i :: 0 <= i < |s| ==> IsDigit(s[i])
  {
    if s == [] then 0
    else 10 * DecimalValue(s[..|s| - 1]) + DigitValue(s[|s| - 1])
  }

  /** String concatenation of a nullable Long: its digits, or "null". */
  function LongText(v: Long): string {
    match v
    case None => "null"
    case Some(x) => DecimalText(x)
  }

  lemma DigitRoundTrip(d: nat)
    requires d < 10
    ensures DigitValue(DigitChar(d)) == d
  {
  }

  /** Reading back the digits Java prints for an id yields the id. */
  lemma {:induction false} DecimalRoundTrip(n: nat)
    ensures DecimalValue(DecimalText(n)) == n
  {
    if n < 10 {
      DigitRoundTrip(n);
    } else {
      var s := DecimalText(n);
      assert s[..|s| - 1] == DecimalText(n / 10);
      DecimalRoundTrip(n / 10);
      DigitRoundTrip(n % 10);
    }
  }

  /** Different ids print differently. */
  lemma DecimalTextInjective(m: nat, n: nat)
    requires DecimalText(m) == DecimalText(n)
    ensures m == n
  {
    DecimalRoundTrip(m);
    DecimalRoundTrip(n);
  }

  lemma CharAfterPrefix(a: string, b: string, i: nat)
    requires |a| <= i < |a| + |b|
    ensures (a + b)[i] == b[i - |a|]
  {
  }

  /** When a run of digits is followed by a non-digit, the digits can be
      split off unambiguously: how an id is recovered from a message. */
  lemma {:induction false} SplitAfterDigits(d1: string, x: string, d2: string, y: string)
    requires IsDecimal(d1) && IsDecimal(d2)
    requires |x| > 0 && !IsDigit(x[0]) && |y| > 0 && !IsDigit(y[0])
    requires d1 + x == d2 + y
    ensures d1 == d2 && x == y
  {
    if |d1| < |d2| {
      CharAfterPrefix(d1, x, |d1|);
      assert false;
    } else if |d2| < |d1| {
      CharAfterPrefix(d2, y, |d2|);
      assert false;
    } else {
      assert d1 == (d1 + x)[..|d1|];
      assert d2 == (d2 + y)[..|d2|];
      assert x == (d1 + x)[|d1|..];
      assert y == (d2 + y)[|d2|..];
    }
  }

  /** A message naming one id between a fixed prefix and a fixed suffix that
      starts with a non-digit names it unambiguously. */
  lemma OneIdMessageInjective(pre: string, post: string, m: nat, n: nat)
    requires |post| > 0 && !IsDigit(post[0])
    requires pre + DecimalText(m) + post == pre + DecimalText(n) + post
    ensures m == n
  {
    assert pre + DecimalText(m) + post == pre + (DecimalText(m) + post);
    assert pre + DecimalText(n) + post == pre + (DecimalText(n) + post);
    DropPrefix(pre, DecimalText(m) + post, DecimalText(n) + post);
    SplitAfterDigits(DecimalText(m), post, DecimalText(n), post);
    DecimalTextInjective(m, n);
  }

  lemma DropPrefix(pre: string, x: string, y: string)
    requires pre + x == pre + y
    ensures x == y
  {
    assert x == (pre + x)[|pre|..];
    assert y == (pre + y)[|pre|..];
  }

  lemma Regroup(a: string, b: string, c: string)
    ensures a + b + c == a + (b + c)
  {
  }

  /** The same for a message naming two ids with fixed text between and after
      them. */
  lemma TwoIdMessageInjective(pre: string, mid: string, post: string, m1: nat, n1: nat, m2: nat, n2: nat)
    requires |mid| > 0 && !IsDigit(mid[0]) && |post| > 0 && !IsDigit(post[0])
    requires pre + DecimalText(m1) + mid + DecimalText(n1) + post
          == pre + DecimalText(m2) + mid + DecimalText(n2) + post
    ensures m1 == m2 && n1 == n2
  {
    var u1 := DecimalText(n1) + post;
    var u2 := DecimalText(n2) + post;
    var t1 := mid + u1;
    var t2 := mid + u2;
    Regroup(pre + DecimalText(m1) + mid, DecimalText(n1), post);
    Regroup(pre + DecimalText(m1), mid, u1);
    Regroup(pre, DecimalText(m1), t1);
    Regroup(pre + DecimalText(m2) + mid, DecimalText(n2), post);
    Regroup(pre + DecimalText(m2), mid, u2);
    Regroup(pre, DecimalText(m2), t2);
    DropPrefix(pre, DecimalText(m1) + t1, DecimalText(m2) + t2);
    assert t1[0] == mid[0] && t2[0] == mid[0];
    SplitAfterDigits(DecimalText(m1), t1, DecimalText(m2), t2);
    DecimalTextInjective(m1, m2);
    DropPrefix(mid, u1, u2);
    SplitAfterDigits(DecimalText(n1), post, DecimalText(n2), post);
    DecimalTextInjective(n1, n2);
  }
}
