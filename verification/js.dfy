/**
 * The part of JavaScript's value semantics the data layer relies on: truthiness,
 * `typeof`, conversion to a string, `Array.prototype.join` and
 * `String.prototype.split` with a one-character separator.
 * Numbers are integers only; floating point is not modelled.
 */
module Js {

  /** A JavaScript value. Objects are compared structurally, not by reference. */
  datatype Value =
    | Undefined
    | Null
    | Bool(b: bool)
    | Num(n: int)
    | Str(s: string)
    | Object(props: map<string, Value>)

  /** The values an `if (v)` test accepts. */
  predicate Truthy(v: Value) {
    match v
    case Undefined => false
    case Null => false
    case Bool(b) => b
    case Num(n) => n != 0
    case Str(s) => s != ""
    case Object(_) => true
  }

  /** Exactly five values are falsy: `undefined`, `null`, `false`, `0` and `""`. */
  lemma FalsyValues(v: Value)
    ensures !Truthy(v) <==> v == Undefined || v == Null || v == Bool(false) || v == Num(0) || v == Str("")
  {
  }

  /** The `typeof` operator: `null` reports "object", like an object does. */
  function TypeOf(v: Value): (t: string)
    ensures t == "object" <==> v.Null? || v.Object?
    ensures t == "undefined" <==> v.Undefined?
  {
    match v
    case Undefined => "undefined"
    case Null => "object"
    case Bool(_) => "boolean"
    case Num(_) => "number"
    case Str(_) => "string"
    case Object(_) => "object"
  }

  /** Property read `v[name]`; primitives are taken to carry no own properties. */
  function Property(v: Value, name: string): Value {
    if v.Object? && name in v.props then v.props[name] else Undefined
  }

  function DigitChar(d: nat): (c: char)
    requires d < 10
    ensures '0' <= c <= '9'
  {
    "0123456789"[d]
  }

  /** Decimal digits of a natural number, most significant first. */
  function NatToString(n: nat): (r: string)
    ensures |r| >= 1
    ensures forall i :: 0 <= i < |r| ==> '0' <= r[i] <= '9'
    decreases n
  {
    if n < 10 then [DigitChar(n)] else NatToString(n / 10) + [DigitChar(n % 10)]
  }

  /** `Number.prototype.toString()` on an integral number. */
  function NumToString(n: int): (r: string)
    ensures |r| >= 1
    ensures forall i :: 0 <= i < |r| ==> r[i] == '-' || '0' <= r[i] <= '9'
  {
    if n < 0 then "-" + NatToString(-n) else NatToString(n)
  }

  /**
   * `String(v)`, which is also the property-key conversion `obj[v]` performs.
   * A string converts to itself, and only the empty string converts to "".
   */
  function ToJsString(v: Value): (r: string)
    ensures v.Str? ==> r == v.s
    ensures r == "" <==> v == Str("")
  {
    match v
    case Undefined => "undefined"
    case Null => "null"
    case Bool(b) => if b then "true" else "false"
    case Num(n) => NumToString(n)
    case Str(s) => s
    case Object(_) => "[object Object]"
  }

  /** How `Array.prototype.join` renders one element: `undefined` and `null` become "". */
  function JoinElement(v: Value): string {
    if v.Undefined? || v.Null? then "" else ToJsString(v)
  }

  /** `parts.join(sep)` on an array of strings: it starts with the first part, and an empty array gives "". */
  function Join(sep: string, parts: seq<string>): (r: string)
    ensures |parts| > 0 ==> parts[0] <= r
    ensures |parts| == 0 ==> r == ""
    decreases |parts|
  {
    if |parts| == 0 then ""
    else if |parts| == 1 then parts[0]
    else parts[0] + sep + Join(sep, parts[1..])
  }

  /** `s.split(c)` for a one-character separator `c`: never empty, and no piece contains `c`. */
  function Split(s: string, c: char): (r: seq<string>)
    ensures |r| >= 1
    ensures forall i :: 0 <= i < |r| ==> c !in r[i]
    decreases |s|
  {
    if |s| == 0 then [""]
    else
      var rest := Split(s[1..], c);
      if s[0] == c then [""] + rest else [[s[0]] + rest[0]] + rest[1..]
  }

  /** Number of occurrences of `c` in `s`. */
  function Count(c: char, s: string): nat
    decreases |s|
  {
    if |s| == 0 then 0 else (if s[0] == c then 1 else 0) + Count(c, s[1..])
  }

  /** A number's decimal form never contains the record delimiter `|`. */
  lemma NumToStringHasNoBar(n: int)
    ensures '|' !in NumToString(n)
  {
  }

  lemma {:induction false} CountAppend(c: char, a: string, b: string)
    ensures Count(c, a + b) == Count(c, a) + Count(c, b)
    decreases |a|
  {
    if |a| == 0 {
      assert a + b == b;
    } else {
      assert (a + b)[1..] == a[1..] + b;
      CountAppend(c, a[1..], b);
    }
  }

  lemma {:induction false} CountAbsent(c: char, s: string)
    requires c !in s
    ensures Count(c, s) == 0
    decreases |s|
  {
    if |s| > 0 {
      assert c !in s[1..] by {
        forall i | 0 <= i < |s[1..]| ensures s[1..][i] != c {
          assert s[1..][i] == s[i + 1];
        }
      }
      CountAbsent(c, s[1..]);
    }
  }

  /**
   * Joining `n` pieces with a one-character separator puts at least `n - 1`
   * separators into the result, and exactly `n - 1` when no piece contains it.
   */
  lemma {:induction false} JoinCount(c: char, parts: seq<string>)
    requires |parts| >= 1
    ensures Count(c, Join([c], parts)) >= |parts| - 1
    ensures (forall i :: 0 <= i < |parts| ==> c !in parts[i]) ==> Count(c, Join([c], parts)) == |parts| - 1
    decreases |parts|
  {
    if |parts| == 1 {
      if c !in parts[0] { CountAbsent(c, parts[0]); }
    } else {
      var rest := Join([c], parts[1..]);
      JoinCount(c, parts[1..]);
      CountAppend(c, parts[0] + [c], rest);
      CountAppend(c, parts[0], [c]);
      assert Count(c, [c]) == 1 by { assert [c][1..] == []; }
      if forall i :: 0 <= i < |parts| ==> c !in parts[i] {
        CountAbsent(c, parts[0]);
        assert forall i :: 0 <= i < |parts[1..]| ==> c !in parts[1..][i] by {
          forall i | 0 <= i < |parts[1..]| ensures c !in parts[1..][i] {
            assert parts[1..][i] == parts[i + 1];
          }
        }
      }
    }
  }

  /** Splitting a piece free of `c` gives back that piece alone. */
  lemma {:induction false} SplitAbsent(s: string, c: char)
    requires c !in s
    ensures Split(s, c) == [s]
    decreases |s|
  {
    if |s| > 0 {
      assert c !in s[1..] by {
        forall i | 0 <= i < |s[1..]| ensures s[1..][i] != c {
          assert s[1..][i] == s[i + 1];
        }
      }
      SplitAbsent(s[1..], c);
      assert [s[0]] + s[1..] == s;
    }
  }

  /** Splitting `a + c + b` where `a` is free of `c` yields `a` followed by the pieces of `b`. */
  lemma {:induction false} SplitAfterPiece(a: string, c: char, b: string)
    requires c !in a
    ensures Split(a + [c] + b, c) == [a] + Split(b, c)
    decreases |a|
  {
    var s := a + [c] + b;
    if |a| == 0 {
      assert s == [c] + b;
      assert s[1..] == b;
    } else {
      assert s[1..] == a[1..] + [c] + b;
      assert c !in a[1..] by {
        forall i | 0 <= i < |a[1..]| ensures a[1..][i] != c {
          assert a[1..][i] == a[i + 1];
        }
      }
      SplitAfterPiece(a[1..], c, b);
      assert [a[0]] + a[1..] == a;
    }
  }

  /** `join` followed by `split` gives back the pieces, provided no piece contains the separator. */
  lemma {:induction false} SplitJoin(parts: seq<string>, c: char)
    requires |parts| >= 1
    requires forall i :: 0 <= i < |parts| ==> c !in parts[i]
    ensures Split(Join([c], parts), c) == parts
    decreases |parts|
  {
    if |parts| == 1 {
      SplitAbsent(parts[0], c);
    } else {
      assert c !in parts[0];
      SplitJoin(parts[1..], c);
      SplitAfterPiece(parts[0], c, Join([c], parts[1..]));
      assert Join([c], parts) == parts[0] + [c] + Join([c], parts[1..]);
      assert [parts[0]] + parts[1..] == parts;
    }
  }

  /** `split` followed by `join` gives back the original string. */
  lemma {:induction false} JoinSplit(s: string, c: char)
    ensures Join([c], Split(s, c)) == s
    decreases |s|
  {
    if |s| > 0 {
      var rest := Split(s[1..], c);
      JoinSplit(s[1..], c);
      if s[0] == c {
        assert Split(s, c) == [""] + rest;
        assert ([""] + rest)[1..] == rest;
        assert s == [c] + s[1..];
      } else {
        var r := Split(s, c);
        assert r == [[s[0]] + rest[0]] + rest[1..];
        if |rest| == 1 {
          assert s == [s[0]] + s[1..];
        } else {
          assert r[1..] == rest[1..];
          assert Join([c], rest) == rest[0] + [c] + Join([c], rest[1..]);
          assert s == [s[0]] + s[1..];
        }
      }
    }
  }
}
