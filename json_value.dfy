/**
  Parsed JSON / YAML values as the Python tools see them after `json.loads`
  or `yaml.safe_load`, together with the few Python built-ins the tools apply
  to them: `dict.get`, item assignment, truthiness, `==` and `str()`.

  Dictionaries keep their insertion order (a sequence of members): setting an
  existing key replaces its value in place, setting a new key appends it.
  A Python float is kept as the text Python prints for it (`repr`), because
  the tools never compute with floats; they only compare, print and copy them.
*/
module JsonValue {

  datatype Option<T> = None | Some(value: T)

  /** The value a tool computes, or the error it raises on purpose. */
  datatype Result<T, E> = Ok(value: T) | Err(error: E)

  datatype Value =
    | JNull
    | JBool(b: bool)
    | JInt(i: int)
    | JFloat(repr: string)
    | JStr(s: string)
    | JArr(items: seq<Value>)
    | JObj(members: seq<Member>)

  datatype Member = Member(key: string, value: Value)

  /** The content of an existing file: it did not parse, or it parsed to a value. */
  datatype Content = Unparsable | Json(value: Value)

  /** The file system: a path that is not a key does not exist. */
  type FileSystem = map<string, Content>

  // ---------------------------------------------------------------------------
  // Size, for termination of walks over nested values
  // ---------------------------------------------------------------------------

  function Size(v: Value): nat
  {
    match v
    case JArr(items) => 1 + SizeSeq(items)
    case JObj(ms) => 1 + SizeMembers(ms)
    case _ => 1
  }

  function SizeSeq(s: seq<Value>): nat
  {
    if s == [] then 0 else Size(s[0]) + SizeSeq(s[1..])
  }

  function SizeMembers(ms: seq<Member>): nat
  {
    if ms == [] then 0 else Size(ms[0].value) + SizeMembers(ms[1..])
  }

  lemma {:induction false} SizeSeqElement(s: seq<Value>, i: nat)
    requires i < |s|
    ensures Size(s[i]) <= SizeSeq(s)
  {
    if i > 0 {
      SizeSeqElement(s[1..], i - 1);
    }
  }

  lemma {:induction false} SizeMembersElement(ms: seq<Member>, i: nat)
    requires i < |ms|
    ensures Size(ms[i].value) <= SizeMembers(ms)
  {
    if i > 0 {
      SizeMembersElement(ms[1..], i - 1);
    }
  }

  // ---------------------------------------------------------------------------
  // Sequences: prefix facts used by loop invariants
  // ---------------------------------------------------------------------------

  lemma AppendDiffers<T>(a: seq<T>, b: seq<T>, x: T, y: T)
    requires |a| == |b|
    ensures a + [x] != b + [y] <==> a != b || x != y
  {
    if a + [x] == b + [y] {
      assert a == (a + [x])[..|a|] && b == (b + [y])[..|b|];
      assert x == (a + [x])[|a|] && y == (b + [y])[|b|];
    }
  }

  lemma PrefixStep<T>(s: seq<T>, i: int)
    requires 0 <= i < |s|
    ensures s[..i + 1] == s[..i] + [s[i]]
  {
  }

  lemma PrefixAll<T>(s: seq<T>)
    ensures s[..|s|] == s
  {
  }

  lemma PrefixIndex<T>(s: seq<T>, n: int, i: int)
    requires 0 <= i < n <= |s|
    ensures s[..n][i] == s[i]
  {
  }

  lemma SliceOfSlice<T>(s: seq<T>, a: int, n: int)
    requires 0 <= a && 0 <= n && a + n <= |s|
    ensures s[a..][..n] == s[a..a + n]
  {
  }

  lemma ConcatAssoc<T>(a: seq<T>, b: seq<T>, c: seq<T>)
    ensures (a + b) + c == a + (b + c)
  {
  }

  lemma PrefixInit<T>(s: seq<T>, i: int)
    requires 0 <= i < |s|
    ensures s[..i + 1][..i] == s[..i] && s[..i + 1][i] == s[i] && |s[..i + 1]| == i + 1
  {
  }

  // ---------------------------------------------------------------------------
  // Dictionaries
  // ---------------------------------------------------------------------------

  /** The position of key `k` among the members, or -1. */
  function IndexOf(ms: seq<Member>, k: string): (r: int)
    ensures -1 <= r < |ms|
    ensures r >= 0 ==> ms[r].key == k && forall j :: 0 <= j < r ==> ms[j].key != k
    ensures r < 0 ==> forall j :: 0 <= j < |ms| ==> ms[j].key != k
  {
    if ms == [] then -1
    else if ms[0].key == k then 0
    else
      var r := IndexOf(ms[1..], k);
      if r < 0 then -1 else r + 1
  }

  /** `k in o` for a dictionary `o`. */
  predicate Has(o: Value, k: string)
  {
    o.JObj? && IndexOf(o.members, k) >= 0
  }

  /** `o.get(k, d)`. */
  function GetOr(o: Value, k: string, d: Value): (r: Value)
    ensures Has(o, k) ==> Size(r) < Size(o)
    ensures !Has(o, k) ==> r == d
  {
    if Has(o, k) then
      SizeMembersElement(o.members, IndexOf(o.members, k));
      o.members[IndexOf(o.members, k)].value
    else d
  }

  predicate DistinctKeys(ms: seq<Member>)
  {
    forall a, b :: 0 <= a < b < |ms| ==> ms[a].key != ms[b].key
  }

  /** In a dict whose keys are distinct, each member is found under its key. */
  lemma GetDistinct(ms: seq<Member>, i: int)
    requires 0 <= i < |ms| && DistinctKeys(ms)
    ensures Has(JObj(ms), ms[i].key) && GetOr(JObj(ms), ms[i].key, JNull) == ms[i].value
  {
    var r := IndexOf(ms, ms[i].key);
    assert r == i;
  }

  /** The keys of a dict are exactly its members' keys. */
  lemma HasIff(ms: seq<Member>, k: string)
    ensures Has(JObj(ms), k) <==> exists i :: 0 <= i < |ms| && ms[i].key == k
  {
  }

  /** `o.get(k)`: Python returns None for a missing key. */
  function Get(o: Value, k: string): Value
  {
    GetOr(o, k, JNull)
  }

  /** With the key present the default of `GetOr` plays no part. */
  lemma GetOrPresent(o: Value, k: string, d: Value)
    requires Has(o, k)
    ensures GetOr(o, k, d) == Get(o, k)
  {
  }

  /** `o[k] = v` on a dictionary: replace in place, or append a new key. */
  function Set(o: Value, k: string, v: Value): (r: Value)
    requires o.JObj?
    ensures r.JObj? && Has(r, k) && Get(r, k) == v
    ensures forall k' :: k' != k ==> Has(r, k') == Has(o, k')
    ensures forall k', d :: k' != k ==> GetOr(r, k', d) == GetOr(o, k', d)
    ensures Has(o, k) ==> |r.members| == |o.members|
    ensures !Has(o, k) ==> r.members == o.members + [Member(k, v)]
  {
    var i := IndexOf(o.members, k);
    if i >= 0 then
      var ms := o.members[i := Member(k, v)];
      ReplaceKeepsOthers(o, k, v);
      KeysUnchanged(o.members, ms);
      JObj(ms)
    else
      var ms := o.members + [Member(k, v)];
      AppendKey(o.members, k, v);
      JObj(ms)
  }

  /** `o.setdefault(k, v)`: the dictionary with `k` added as `v` when missing. */
  function SetDefault(o: Value, k: string, v: Value): (r: Value)
    requires o.JObj?
    ensures r.JObj? && Has(r, k) && Get(r, k) == GetOr(o, k, v)
  {
    if Has(o, k) then o else Set(o, k, v)
  }

  /** Setting one key leaves the lookup of any other key as it was. */
  lemma SetOther(o: Value, k: string, v: Value, k': string, d: Value)
    requires o.JObj? && k != k'
    ensures GetOr(Set(o, k, v), k', d) == GetOr(o, k', d) && Has(Set(o, k, v), k') == Has(o, k')
  {
  }

  lemma SetDefaultOther(o: Value, k: string, v: Value, k': string, d: Value)
    requires o.JObj? && k != k'
    ensures GetOr(SetDefault(o, k, v), k', d) == GetOr(o, k', d) && Has(SetDefault(o, k, v), k') == Has(o, k')
  {
    if !Has(o, k) {
      SetOther(o, k, v, k', d);
    }
  }

  lemma KeysUnchanged(ms: seq<Member>, ns: seq<Member>)
    requires |ms| == |ns| && forall j :: 0 <= j < |ms| ==> ms[j].key == ns[j].key
    ensures forall k :: IndexOf(ns, k) == IndexOf(ms, k)
  {
    forall k ensures IndexOf(ns, k) == IndexOf(ms, k) {
      var a, b := IndexOf(ns, k), IndexOf(ms, k);
      if a >= 0 && b >= 0 {
        assert !(a < b) && !(b < a);
      }
    }
  }

  lemma ReplaceKeepsOthers(o: Value, k: string, v: Value)
    requires o.JObj? && IndexOf(o.members, k) >= 0
    ensures var r := JObj(o.members[IndexOf(o.members, k) := Member(k, v)]);
      forall k' :: k' != k ==> Has(r, k') == Has(o, k')
    ensures var r := JObj(o.members[IndexOf(o.members, k) := Member(k, v)]);
      forall k', d :: k' != k ==> GetOr(r, k', d) == GetOr(o, k', d)
  {
    var i := IndexOf(o.members, k);
    var r := JObj(o.members[i := Member(k, v)]);
    assert o.members[i := Member(k, v)] == o.members[i := Member(o.members[i].key, v)];
    assert o == JObj(o.members);
    forall k' | k' != k ensures Has(r, k') == Has(o, k') {
      ReplaceValue(o.members, i, v, k', JNull);
    }
    forall k', d | k' != k ensures GetOr(r, k', d) == GetOr(o, k', d) {
      ReplaceValue(o.members, i, v, k', d);
    }
  }

  lemma ReplaceValue(ms: seq<Member>, i: int, v: Value, k': string, d: Value)
    requires 0 <= i < |ms| && k' != ms[i].key
    ensures Has(JObj(ms[i := Member(ms[i].key, v)]), k') == Has(JObj(ms), k')
    ensures GetOr(JObj(ms[i := Member(ms[i].key, v)]), k', d) == GetOr(JObj(ms), k', d)
  {
    var ns := ms[i := Member(ms[i].key, v)];
    KeysUnchanged(ms, ns);
    var j := IndexOf(ns, k');
    assert j == IndexOf(ms, k');
    if j >= 0 {
      assert j != i;
      assert ns[j] == ms[j];
    }
  }

  lemma {:induction false} IndexOfAppend(ms: seq<Member>, m: Member, k: string)
    ensures IndexOf(ms + [m], k) ==
      if IndexOf(ms, k) >= 0 then IndexOf(ms, k) else if m.key == k then |ms| else -1
  {
    if ms != [] {
      assert (ms + [m])[1..] == ms[1..] + [m];
      IndexOfAppend(ms[1..], m, k);
    }
  }

  lemma AppendKey(ms: seq<Member>, k: string, v: Value)
    requires IndexOf(ms, k) < 0
    ensures IndexOf(ms + [Member(k, v)], k) == |ms|
    ensures forall k' :: k' != k ==> IndexOf(ms + [Member(k, v)], k') == IndexOf(ms, k')
  {
    IndexOfAppend(ms, Member(k, v), k);
    forall k' | k' != k ensures IndexOf(ms + [Member(k, v)], k') == IndexOf(ms, k') {
      IndexOfAppend(ms, Member(k, v), k');
    }
  }

  /** Setting a key to the value it already has changes nothing. */
  lemma SetSame(o: Value, k: string)
    requires Has(o, k)
    ensures Set(o, k, Get(o, k)) == o
  {
    var i := IndexOf(o.members, k);
    assert o.members[i := Member(k, Get(o, k))] == o.members;
  }

  /** Setting a key twice keeps only the second value. */
  lemma SetTwice(o: Value, k: string, v: Value, w: Value)
    requires o.JObj?
    ensures Set(Set(o, k, v), k, w) == Set(o, k, w)
  {
    var i := IndexOf(o.members, k);
    if i >= 0 {
      var ms := o.members[i := Member(k, v)];
      KeysUnchanged(o.members, ms);
      assert ms[i := Member(k, w)] == o.members[i := Member(k, w)];
    } else {
      AppendKey(o.members, k, v);
      assert (o.members + [Member(k, v)])[|o.members| := Member(k, w)] == o.members + [Member(k, w)];
    }
  }

  /** Setting a key to a new value changes the dictionary. */
  lemma SetDifferent(o: Value, k: string, v: Value)
    requires o.JObj? && (!Has(o, k) || Get(o, k) != v)
    ensures Set(o, k, v) != o
  {
    if !Has(o, k) {
      assert |Set(o, k, v).members| == |o.members| + 1;
    }
  }

  // ---------------------------------------------------------------------------
  // Truthiness, `or`, equality and `str()`
  // ---------------------------------------------------------------------------

  predicate IsZeroFloat(r: string)
  {
    r == "0.0" || r == "-0.0"
  }

  /** `bool(v)`. */
  predicate Truthy(v: Value)
  {
    match v
    case JNull => false
    case JBool(b) => b
    case JInt(i) => i != 0
    case JFloat(r) => !IsZeroFloat(r)
    case JStr(s) => |s| > 0
    case JArr(items) => |items| > 0
    case JObj(ms) => |ms| > 0
  }

  /** `a or b`: Python returns the first operand when it is truthy. */
  function Or(a: Value, b: Value): (r: Value)
    ensures r == a || r == b
    ensures Truthy(a) ==> r == a
    ensures !Truthy(a) ==> r == b
  {
    if Truthy(a) then a else b
  }

  function Digit(d: nat): char
    requires d < 10
  {
    "0123456789"[d]
  }

  function NatToDecimal(n: nat): (r: string)
    ensures |r| > 0
  {
    if n < 10 then [Digit(n)] else NatToDecimal(n / 10) + [Digit(n % 10)]
  }

  /** `str(i)` for a Python int. */
  function IntToDecimal(i: int): string
  {
    if i < 0 then "-" + NatToDecimal(-i) else NatToDecimal(i)
  }

  /** A bool or an int, as the int Python compares it as. */
  predicate IsIntLike(v: Value)
  {
    v.JBool? || v.JInt?
  }

  function IntOf(v: Value): int
    requires IsIntLike(v)
  {
    if v.JBool? then (if v.b then 1 else 0) else v.i
  }

  /** `x == y` for two Python floats given by their repr: nan equals nothing, -0.0 equals 0.0. */
  predicate FloatEq(x: string, y: string)
  {
    (x == y && x != "nan") || (IsZeroFloat(x) && IsZeroFloat(y))
  }

  /** `f == i` for a float printed as `f` and an int `i` (floats below 1e16 print as digits and ".0"). */
  predicate FloatIntEq(f: string, i: int)
  {
    f == IntToDecimal(i) + ".0" || (i == 0 && f == "-0.0")
  }

  /**
    Python's `==` on parsed values: bools, ints and floats compare as numbers,
    lists element by element, dictionaries by key regardless of order; values
    of different kinds are never equal.
  */
  predicate PyEq(a: Value, b: Value)
    decreases Size(a)
  {
    match a
    case JNull => b.JNull?
    case JStr(x) => b.JStr? && b.s == x
    case JArr(xs) =>
      b.JArr? && |xs| == |b.items| &&
      forall i :: 0 <= i < |xs| ==> (SizeSeqElement(xs, i); PyEq(xs[i], b.items[i]))
    case JObj(ms) =>
      b.JObj? && |ms| == |b.members| &&
      forall i :: 0 <= i < |ms| ==>
        IndexOf(b.members, ms[i].key) >= 0 &&
        (SizeMembersElement(ms, i); PyEq(ms[i].value, b.members[IndexOf(b.members, ms[i].key)].value))
    case JFloat(x) =>
      (b.JFloat? && FloatEq(x, b.repr)) || (IsIntLike(b) && FloatIntEq(x, IntOf(b)))
    case _ =>
      (IsIntLike(b) && IntOf(a) == IntOf(b)) || (b.JFloat? && FloatIntEq(b.repr, IntOf(a)))
  }

  /** Comparing with a string literal (`v == "record"`) holds only for that very string. */
  lemma PyEqString(v: Value, s: string)
    ensures PyEq(v, JStr(s)) <==> v == JStr(s)
    ensures PyEq(JStr(s), v) <==> v == JStr(s)
  {
  }

  /** Comparing with None (`v is None`, `v == None`) holds only for None. */
  lemma PyEqNone(v: Value)
    ensures PyEq(v, JNull) <==> v == JNull
    ensures PyEq(JNull, v) <==> v == JNull
  {
  }

  /** A string, bool, int or float: the kinds `str()` is applied to for versions. */
  predicate IsScalar(v: Value)
  {
    v.JStr? || v.JBool? || v.JInt? || v.JFloat?
  }

  /** `str(v)` for a string, bool, int or float. */
  function PyStr(v: Value): string
    requires IsScalar(v)
  {
    match v
    case JStr(s) => s
    case JBool(b) => if b then "True" else "False"
    case JInt(i) => IntToDecimal(i)
    case JFloat(r) => r
  }

  /** The escape `repr` writes for one character of a string quoted with `q`. */
  function EscapeChar(c: char, q: char): string
  {
    if c == '\\' then "\\\\"
    else if c == q then ['\\', q]
    else if c == '\n' then "\\n"
    else if c == '\r' then "\\r"
    else if c == '\t' then "\\t"
    else [c]
  }

  function EscapeChars(s: string, q: char): string
  {
    if s == [] then [] else EscapeChar(s[0], q) + EscapeChars(s[1..], q)
  }

  /** `repr(s)`: single quotes, unless the text holds a single quote and no double quote. */
  function QuoteStr(s: string): string
  {
    var q := if '\'' in s && '"' !in s then '"' else '\'';
    [q] + EscapeChars(s, q) + [q]
  }

  /** `repr(v)`: how Python shows a value inside a list or a dict. */
  function Repr(v: Value): string
    decreases Size(v), 0
  {
    match v
    case JNull => "None"
    case JStr(s) => QuoteStr(s)
    case JArr(items) => "[" + ReprItems(items) + "]"
    case JObj(ms) => "{" + ReprMembers(ms) + "}"
    case _ => PyStr(v)
  }

  function ReprItems(s: seq<Value>): string
    decreases SizeSeq(s), 1
  {
    if s == [] then ""
    else if |s| == 1 then Repr(s[0])
    else Repr(s[0]) + ", " + ReprItems(s[1..])
  }

  function ReprMembers(ms: seq<Member>): string
    decreases SizeMembers(ms), 1
  {
    if ms == [] then ""
    else
      var m := QuoteStr(ms[0].key) + ": " + Repr(ms[0].value);
      if |ms| == 1 then m else m + ", " + ReprMembers(ms[1..])
  }

  /** `str(v)` (and `f"{v}"`) for any value: a string as it is, anything else as `repr` shows it. */
  function Str(v: Value): (r: string)
    ensures IsScalar(v) ==> r == PyStr(v)
    ensures v.JNull? ==> r == "None"
  {
    if v.JStr? then v.s else Repr(v)
  }

  // ---------------------------------------------------------------------------
  // Paths
  // ---------------------------------------------------------------------------

  /**
    `base / p` on a pathlib path, with `.resolve()` taken as the identity on
    path strings: an absolute `p` replaces the base and an empty `p` adds
    nothing.
  */
  function Join(base: string, p: string): string
  {
    if p == "" then base
    else if p[0] == '/' then p
    else base + "/" + p
  }

  // ---------------------------------------------------------------------------
  // Strings
  // ---------------------------------------------------------------------------

  predicate EndsWith(s: string, suffix: string)
  {
    |suffix| <= |s| && s[|s| - |suffix|..] == suffix
  }

  predicate StartsWith(s: string, prefix: string)
  {
    |prefix| <= |s| && s[..|prefix|] == prefix
  }

  /** `sub in s` for two strings. */
  predicate Contains(s: string, sub: string)
  {
    StartsWith(s, sub) || (|s| > 0 && Contains(s[1..], sub))
  }

  /** `s.replace(pat, "")`: every non-overlapping occurrence, scanned left to right, is removed. */
  function RemoveAll(s: string, pat: string): (r: string)
    requires |pat| > 0
    ensures |r| <= |s|
  {
    if |s| == 0 then s
    else if StartsWith(s, pat) then RemoveAll(s[|pat|..], pat)
    else [s[0]] + RemoveAll(s[1..], pat)
  }

  function LowerChar(c: char): char
  {
    if 'A' <= c <= 'Z' then (c as int + 32) as char else c
  }

  /** `s.lower()` restricted to ASCII letters. */
  function AsciiLower(s: string): (r: string)
    ensures |r| == |s|
    ensures forall i :: 0 <= i < |s| ==> r[i] == LowerChar(s[i])
  {
    if s == [] then [] else [LowerChar(s[0])] + AsciiLower(s[1..])
  }

  /** Python's `<` on strings: code point by code point, a proper prefix first. */
  predicate StrLt(a: string, b: string)
  {
    if a == [] then b != []
    else if b == [] then false
    else if a[0] != b[0] then a[0] < b[0]
    else StrLt(a[1..], b[1..])
  }

  predicate StrLe(a: string, b: string)
  {
    a == b || StrLt(a, b)
  }

  lemma {:induction false} StrLtIrreflexive(a: string)
    ensures !StrLt(a, a)
  {
    if a != [] {
      StrLtIrreflexive(a[1..]);
    }
  }

  lemma {:induction false} StrLtTotal(a: string, b: string)
    ensures a == b || StrLt(a, b) || StrLt(b, a)
  {
    if a != [] && b != [] && a[0] == b[0] {
      StrLtTotal(a[1..], b[1..]);
      if a[1..] == b[1..] {
        assert a == [a[0]] + a[1..] && b == [b[0]] + b[1..];
      }
    }
  }

  lemma {:induction false} StrLtAsymmetric(a: string, b: string)
    ensures !(StrLt(a, b) && StrLt(b, a))
  {
    if a != [] && b != [] && a[0] == b[0] {
      StrLtAsymmetric(a[1..], b[1..]);
    }
  }

  lemma {:induction false} StrLtTransitive(a: string, b: string, c: string)
    requires StrLt(a, b) && StrLt(b, c)
    ensures StrLt(a, c)
  {
    if a != [] && b != [] && c != [] && a[0] == b[0] && b[0] == c[0] {
      StrLtTransitive(a[1..], b[1..], c[1..]);
    }
  }

  /** Every finite non-empty set of strings has a least element. */
  lemma {:induction false} StrMinExists(s: set<string>)
    requires s != {}
    ensures exists m :: m in s && forall x :: x in s ==> StrLe(m, x)
  {
    var y :| y in s;
    if s == {y} {
      assert StrLe(y, y);
      assert forall x :: x in s ==> x == y;
    } else {
      StrMinExists(s - {y});
      var m :| m in s - {y} && forall x :: x in s - {y} ==> StrLe(m, x);
      StrLtTotal(m, y);
      if StrLt(m, y) {
        assert forall x :: x in s ==> x in s - {y} || x == y;
      } else {
        forall x | x in s ensures StrLe(y, x) {
          if x != y {
            assert x in s - {y};
            if m != x { StrLtTransitive(y, m, x); }
          }
        }
      }
    }
  }

  /** Sorted ascending under Python's string order. */
  predicate StrSorted(s: seq<string>)
  {
    forall i, j :: 0 <= i < j < |s| ==> StrLt(s[i], s[j])
  }
}
