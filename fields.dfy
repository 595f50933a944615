/** Data model shared by the query helpers and the metadata manager component:
    metadata field definitions, the JavaScript `trim` used for name matching,
    and the two array filters the app relies on. */
module Fields {

  datatype Option<+T> = None | Some(value: T)

  /** A source field as the catalog reader normalises it. `options` is absent
      (None) when the reader found no option values, exactly as the object
      literal omits the key. */
  datatype Field = Field(id: string, name: string, typeName: string, options: Option<seq<string>>)

  /** A field of the destination library as the merge query reads it;
      `options` holds the option values of a choice-typed field. */
  datatype DestField = DestField(id: string, name: string, typeName: string, options: seq<string>)

  /** SELECT and MULTISELECT are the two choice types. */
  predicate IsChoice(typeName: string) {
    typeName == "SELECT" || typeName == "MULTISELECT"
  }

  /** JavaScript `obj[key]` on a string-keyed object: a missing key and a key
      holding `undefined` read the same. */
  function Entry(m: map<string, Option<seq<string>>>, key: string): Option<seq<string>> {
    if key in m then m[key] else None
  }

  // ---------------------------------------------------------------------
  // String.prototype.trim

  /** The code points ECMAScript counts as WhiteSpace or LineTerminator. */
  predicate IsWhitespace(c: char) {
    var n := c as int;
    n == 0x09 || n == 0x0A || n == 0x0B || n == 0x0C || n == 0x0D || n == 0x20 ||
    n == 0xA0 || n == 0x1680 || (0x2000 <= n <= 0x200A) || n == 0x2028 || n == 0x2029 ||
    n == 0x202F || n == 0x205F || n == 0x3000 || n == 0xFEFF
  }

  predicate AllWhitespace(s: string) {
    forall i :: 0 <= i < |s| ==> IsWhitespace(s[i])
  }

  /** A string that `trim` leaves alone. */
  predicate IsTrimmed(s: string) {
    s == [] || (!IsWhitespace(s[0]) && !IsWhitespace(s[|s| - 1]))
  }

  /** The number of whitespace characters `s` starts with. */
  function Leading(s: string): (k: nat)
    ensures k <= |s|
    ensures forall i :: 0 <= i < k ==> IsWhitespace(s[i])
    ensures k < |s| ==> !IsWhitespace(s[k])
  {
    if |s| > 0 && IsWhitespace(s[0]) then
      var k := Leading(s[1..]);
      assert forall i :: 1 <= i < k + 1 ==> s[i] == s[1..][i - 1];
      k + 1
    else 0
  }

  /** The number of whitespace characters `s` ends with. */
  function Trailing(s: string): (k: nat)
    ensures k <= |s|
    ensures forall i :: |s| - k <= i < |s| ==> IsWhitespace(s[i])
    ensures k < |s| ==> !IsWhitespace(s[|s| - 1 - k])
  {
    if |s| > 0 && IsWhitespace(s[|s| - 1]) then
      var k := Trailing(s[..|s| - 1]);
      assert forall i :: |s| - 1 - k <= i < |s| - 1 ==> s[i] == s[..|s| - 1][i];
      k + 1
    else 0
  }

  /** `s.trim()`: leading and trailing whitespace removed. */
  function Trim(s: string): (r: string)
    ensures IsTrimmed(r)
  {
    var t := s[Leading(s)..];
    t[..|t| - Trailing(t)]
  }

  /** `trim` removes only whitespace, from both ends, and keeps the middle as it
      is: the result is the run of `s` that starts at the first non-whitespace
      character. */
  lemma TrimSlice(s: string)
    ensures var i, r := Leading(s), Trim(s);
            && i + |r| <= |s| && r == s[i..i + |r|]
            && AllWhitespace(s[..i]) && AllWhitespace(s[i + |r|..])
  {
    TrimMiddle(s);
    LeadingRemoved(s);
    TrimEnd(s);
  }

  lemma TrimMiddle(s: string)
    ensures Leading(s) + |Trim(s)| <= |s| && Trim(s) == s[Leading(s)..Leading(s) + |Trim(s)|]
  {
    var i := Leading(s);
    var t := s[i..];
    var j := |t| - Trailing(t);
    assert Trim(s) == t[..j];
    SliceOfSuffix(s, i, j);
  }

  lemma SliceOfSuffix(s: string, i: nat, j: nat)
    requires i + j <= |s|
    ensures s[i..][..j] == s[i..i + j]
  {
  }

  lemma TrimEnd(s: string)
    ensures Leading(s) + |Trim(s)| <= |s| && AllWhitespace(s[Leading(s) + |Trim(s)|..])
  {
    var i := Leading(s);
    var t := s[i..];
    var j := |t| - Trailing(t);
    assert |Trim(s)| == j;
    assert s[i + j..] == t[j..];
    TrailingRemoved(t);
  }

  lemma LeadingRemoved(s: string)
    ensures AllWhitespace(s[..Leading(s)])
  {
    forall k | 0 <= k < Leading(s)
      ensures IsWhitespace(s[..Leading(s)][k])
    {
      assert s[..Leading(s)][k] == s[k];
    }
  }

  lemma TrailingRemoved(t: string)
    ensures AllWhitespace(t[|t| - Trailing(t)..])
  {
    var j := |t| - Trailing(t);
    forall k | 0 <= k < |t| - j
      ensures IsWhitespace(t[j..][k])
    {
      assert t[j..][k] == t[j + k];
    }
  }

  /** Trimming an already trimmed name changes nothing, so `trim` is idempotent. */
  lemma TrimOfTrimmed(s: string)
    requires IsTrimmed(s)
    ensures Trim(s) == s
  {
    assert Leading(s) == 0;
    assert Trailing(s) == 0;
  }

  // ---------------------------------------------------------------------
  // Order-preserving filters

  /** `a` is `b` with some elements dropped and the rest kept in order. */
  predicate Subsequence<T(==)>(a: seq<T>, b: seq<T>)
    decreases |b|
  {
    a == [] || (b != [] && if a[0] == b[0] then Subsequence(a[1..], b[1..]) else Subsequence(a, b[1..]))
  }

  /** Skipping one more element of `b` keeps `a` a subsequence. */
  lemma {:induction false} SubsequenceSkip<T>(a: seq<T>, b: seq<T>)
    requires b != [] && Subsequence(a, b[1..])
    ensures Subsequence(a, b)
    decreases |b|, 0
  {
    if a != [] && a[0] == b[0] {
      SubsequenceTail(a, b[1..]);
    }
  }

  /** Dropping the first element of `a` keeps it a subsequence. */
  lemma {:induction false} SubsequenceTail<T>(a: seq<T>, b: seq<T>)
    requires a != [] && Subsequence(a, b)
    ensures Subsequence(a[1..], b)
    decreases |b|, 1
  {
    if a[0] == b[0] {
      SubsequenceSkip(a[1..], b);
    } else {
      SubsequenceTail(a, b[1..]);
      SubsequenceSkip(a[1..], b);
    }
  }

  /** `s.filter(y => y !== x)`: every occurrence of `x` removed, the rest in order. */
  function RemoveAll(s: seq<string>, x: string): (r: seq<string>)
    ensures Subsequence(r, s)
    ensures multiset(r)[x] == 0
    ensures forall y :: y != x ==> multiset(r)[y] == multiset(s)[y]
  {
    if s == [] then []
    else
      var rest := RemoveAll(s[1..], x);
      assert s == [s[0]] + s[1..];
      if s[0] == x then rest else [s[0]] + rest
  }

  /** `chosen.filter(o => !existing.includes(o))`: the chosen values that are not
      yet present, in chosen order and with their repetitions. */
  function Missing(chosen: seq<string>, existing: seq<string>): (d: seq<string>)
    ensures Subsequence(d, chosen)
    ensures forall x :: multiset(d)[x] == if x in existing then 0 else multiset(chosen)[x]
    ensures forall x :: x in d <==> x in chosen && x !in existing
  {
    if chosen == [] then []
    else
      var rest := Missing(chosen[1..], existing);
      assert chosen == [chosen[0]] + chosen[1..];
      if chosen[0] in existing then rest else [chosen[0]] + rest
  }

  /** Every chosen value is either already present or among the missing ones,
      so after the missing values are appended nothing is missing any more. */
  lemma {:induction false} MissingAfterAdding(chosen: seq<string>, existing: seq<string>)
    ensures Missing(chosen, existing + Missing(chosen, existing)) == []
  {
  }
}
