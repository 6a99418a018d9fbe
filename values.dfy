/** Option, the shape in which every failing step of the loader reports. */
module Wrappers {

  datatype Option<+T> = None | Some(value: T)
}

/**
 * Front-matter values, listing records, and the two pieces of JavaScript
 * semantics the loader relies on: truthiness and the `<` operator on strings.
 */
module Values {

  /** A value as the front-matter parser hands it over. */
  datatype Value =
    | Null
    | Bool(b: bool)
    | Num(n: int)
    | Str(s: string)
    | List(items: seq<Value>)
    | Obj(fields: map<string, Value>)

  /** A listing record: an open map from field name to value. */
  type Record = map<string, Value>

  /** The falsy values JavaScript knows that a front-matter value can be. */
  const FalsyValues: set<Value> := {Null, Bool(false), Num(0), Str("")}

  /** JavaScript truthiness: arrays and objects are truthy, whatever they hold. */
  predicate Truthy(v: Value): (t: bool)
    ensures t <==> v !in FalsyValues
  {
    match v
    case Null => false
    case Bool(b) => b
    case Num(n) => n != 0
    case Str(s) => s != ""
    case List(_) => true
    case Obj(_) => true
  }

  /**
   * The `<` operator on two strings: code unit by code unit, and a proper
   * prefix is smaller than the string it is a prefix of.
   */
  predicate StrLess(a: string, b: string)
    decreases |a|
  {
    if |b| == 0 then false
    else if |a| == 0 then true
    else if a[0] != b[0] then a[0] < b[0]
    else StrLess(a[1..], b[1..])
  }

  /**
   * The `<` operator on two front-matter values, for the kinds that compare
   * without coercion: two strings as strings, two numbers as numbers.
   */
  predicate JsLess(x: Value, y: Value): (t: bool)
    ensures x.Str? && y.Str? ==> (t <==> StrLess(x.s, y.s))
    ensures x.Num? && y.Num? ==> (t <==> x.n < y.n)
  {
    match (x, y)
    case (Str(a), Str(b)) => StrLess(a, b)
    case (Num(m), Num(n)) => m < n
    case _ => false
  }

  /** `x < y` and `y < x` never both hold, whatever the kinds of the two values. */
  lemma JsLessAsymmetric(x: Value, y: Value)
    ensures JsLess(x, y) ==> !JsLess(y, x)
  {
    if x.Str? && y.Str? {
      StrLessAsymmetric(x.s, y.s);
    }
  }

  /** Position `k` is the first where `a` and `b` differ, and `a` holds the smaller character there. */
  predicate FirstDifferenceLower(a: string, b: string, k: int) {
    0 <= k < |a| && k < |b| && a[..k] == b[..k] && a[k] < b[k]
  }

  /**
   * StrLess agrees with the textbook definition of string comparison:
   * `a` is a proper prefix of `b`, or the first position where they differ
   * holds a smaller character in `a`.
   */
  lemma StrLessIsLexicographic(a: string, b: string)
    ensures StrLess(a, b) <==> (a < b || exists k :: FirstDifferenceLower(a, b, k))
  {
    if a < b {
      PrefixIsLess(a, b);
    } else if StrLess(a, b) {
      var k := FirstDifferenceOf(a, b);
    }
    if exists k :: FirstDifferenceLower(a, b, k) {
      var k :| FirstDifferenceLower(a, b, k);
      FirstDifferenceIsLess(a, b, k);
    }
  }

  lemma {:induction false} PrefixIsLess(a: string, b: string)
    requires a < b
    ensures StrLess(a, b)
    decreases |a|
  {
    if |a| > 0 {
      assert a[0] == b[0];
      assert a[1..] < b[1..] by {
        assert a[1..] == b[1..|a|];
      }
      PrefixIsLess(a[1..], b[1..]);
    }
  }

  lemma {:induction false} FirstDifferenceIsLess(a: string, b: string, k: int)
    requires FirstDifferenceLower(a, b, k)
    ensures StrLess(a, b)
    decreases |a|
  {
    if k > 0 {
      assert a[0] == a[..k][0] == b[..k][0] == b[0];
      assert a[1..][..k - 1] == a[..k][1..] == b[..k][1..] == b[1..][..k - 1];
      FirstDifferenceIsLess(a[1..], b[1..], k - 1);
    }
  }

  lemma {:induction false} FirstDifferenceOf(a: string, b: string) returns (k: int)
    requires StrLess(a, b) && !(a < b)
    ensures FirstDifferenceLower(a, b, k)
    decreases |a|
  {
    if a[0] != b[0] {
      k := 0;
    } else {
      assert a == [a[0]] + a[1..] && b == [b[0]] + b[1..];
      assert !(a[1..] < b[1..]);
      var j := FirstDifferenceOf(a[1..], b[1..]);
      k := j + 1;
      assert a[..k] == [a[0]] + a[1..][..j];
      assert b[..k] == [b[0]] + b[1..][..j];
    }
  }

  lemma {:induction false} StrLessIrreflexive(a: string)
    ensures !StrLess(a, a)
    decreases |a|
  {
    if |a| > 0 {
      StrLessIrreflexive(a[1..]);
    }
  }

  lemma {:induction false} StrLessAsymmetric(a: string, b: string)
    ensures StrLess(a, b) ==> !StrLess(b, a)
    decreases |a|
  {
    if |a| > 0 && |b| > 0 && a[0] == b[0] {
      StrLessAsymmetric(a[1..], b[1..]);
    }
  }

  lemma {:induction false} StrLessTransitive(a: string, b: string, c: string)
    requires StrLess(a, b) && StrLess(b, c)
    ensures StrLess(a, c)
    decreases |a|
  {
    if |a| > 0 && a[0] == b[0] && b[0] == c[0] {
      StrLessTransitive(a[1..], b[1..], c[1..]);
    }
  }

  /** Two different strings are always ordered one way or the other. */
  lemma {:induction false} StrLessTotal(a: string, b: string)
    requires a != b
    ensures StrLess(a, b) || StrLess(b, a)
    decreases |a|
  {
    if |a| > 0 && |b| > 0 && a[0] == b[0] {
      assert a == [a[0]] + a[1..] && b == [b[0]] + b[1..];
      StrLessTotal(a[1..], b[1..]);
    }
  }
}
