/** IndexedDB keys and their total order (the "compare two keys" algorithm of W3C Indexed
    Database API 2.0):
    every number sorts before every string, numbers compare numerically and strings compare
    code unit by code unit, a proper prefix sorting first. */
module Keys {
  import opened Wrappers
  import opened Values

  datatype Key = Num(n: int) | Str(s: string)

  /** Lexicographic order on strings. */
  predicate StrLess(a: string, b: string)
    decreases |a|
  {
    if |a| == 0 then |b| > 0
    else if |b| == 0 then false
    else a[0] < b[0] || (a[0] == b[0] && StrLess(a[1..], b[1..]))
  }

  predicate Less(a: Key, b: Key) {
    match (a, b)
    case (Num(x), Num(y)) => x < y
    case (Num(_), Str(_)) => true
    case (Str(_), Num(_)) => false
    case (Str(x), Str(y)) => StrLess(x, y)
  }

  lemma {:induction false} StrLessIrreflexive(a: string)
    ensures !StrLess(a, a)
    decreases |a|
  {
    if |a| > 0 {
      StrLessIrreflexive(a[1..]);
    }
  }

  lemma {:induction false} StrLessTransitive(a: string, b: string, c: string)
    requires StrLess(a, b) && StrLess(b, c)
    ensures StrLess(a, c)
    decreases |a|
  {
    if |a| > 0 && |b| > 0 && |c| > 0 && a[0] == b[0] && b[0] == c[0] {
      StrLessTransitive(a[1..], b[1..], c[1..]);
    }
  }

  lemma {:induction false} StrLessTotal(a: string, b: string)
    requires a != b
    ensures StrLess(a, b) || StrLess(b, a)
    decreases |a|
  {
    if |a| > 0 && |b| > 0 && a[0] == b[0] {
      assert a == [a[0]] + a[1..] && b == [b[0]] + b[1..];
      StrLessTotal(a[1..], b[1..]);
    }
  }

  lemma LessIrreflexive(a: Key)
    ensures !Less(a, a)
  {
    if a.Str? {
      StrLessIrreflexive(a.s);
    }
  }

  lemma LessTransitive(a: Key, b: Key, c: Key)
    requires Less(a, b) && Less(b, c)
    ensures Less(a, c)
  {
    if a.Str? && b.Str? && c.Str? {
      StrLessTransitive(a.s, b.s, c.s);
    }
  }

  lemma LessTotal(a: Key, b: Key)
    requires a != b
    ensures Less(a, b) || Less(b, a)
  {
    if a.Str? && b.Str? {
      StrLessTotal(a.s, b.s);
    }
  }

  /** The key a value converts to; `None` for values that are not valid keys here
      (booleans, null, blobs, and arrays, whose array keys this model leaves out). */
  function KeyOf(v: Value): (r: Option<Key>)
    ensures r.Some? <==> (v.VStr? || v.VInt?)
  {
    match v
    case VStr(s) => Some(Str(s))
    case VInt(n) => Some(Num(n))
    case _ => None
  }

  /** The value a key is written back as when a generated key is injected into a record. */
  function ValueOf(k: Key): (v: Value)
    ensures KeyOf(v) == Some(k)
  {
    match k
    case Num(n) => VInt(n)
    case Str(s) => VStr(s)
  }
}
