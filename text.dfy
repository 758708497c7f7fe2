/** String helpers shared by the validators, the upload filter and the query builder. */
module Text {

  datatype Option<T> = None | Some(value: T)

  /** `t` occurs in `s` starting at index `i`. */
  predicate OccursAt(s: string, t: string, i: nat)
  {
    i + |t| <= |s| && s[i..i + |t|] == t
  }

  /** `s` contains one of `alts` somewhere: what an unanchored alternation regex tests. */
  ghost predicate ContainsAny(s: string, alts: seq<string>)
  {
    exists i: nat, k: nat :: k < |alts| && OccursAt(s, alts[k], i)
  }

  /** Some alternative matches at exactly position `i`. */
  predicate MatchesAt(s: string, alts: seq<string>, i: nat)
  {
    exists k | 0 <= k < |alts| :: OccursAt(s, alts[k], i)
  }

  /**
   * Left-to-right scan of a regex engine looking for the first position, at or after `i`,
   * where one of the alternatives matches.
   */
  function SearchFrom(s: string, alts: seq<string>, i: nat): (found: bool)
    requires i <= |s|
    ensures found <==> exists j: nat, k: nat :: i <= j && k < |alts| && OccursAt(s, alts[k], j)
    decreases |s| - i
  {
    if MatchesAt(s, alts, i) then true
    else if i == |s| then
      assert forall j: nat, k: nat :: i < j && k < |alts| ==> !OccursAt(s, alts[k], j) by {
        forall j: nat, k: nat | i < j && k < |alts| ensures !OccursAt(s, alts[k], j) { }
      }
      false
    else SearchFrom(s, alts, i + 1)
  }

  /** The regex `test`: true iff some alternative occurs anywhere in `s`. */
  function Test(s: string, alts: seq<string>): (found: bool)
    ensures found <==> ContainsAny(s, alts)
  {
    SearchFrom(s, alts, 0)
  }

  /** `c` does not occur in `s`. */
  predicate Lacks(s: string, c: char)
  {
    forall j :: 0 <= j < |s| ==> s[j] != c
  }

  /** Index of the last occurrence of `c` in `s`, or -1 when there is none. */
  function LastIndex(s: string, c: char): (r: int)
    ensures -1 <= r < |s|
    ensures r >= 0 ==> s[r] == c
    ensures forall j :: r < j < |s| ==> s[j] != c
  {
    if |s| == 0 then -1
    else if s[|s| - 1] == c then |s| - 1
    else LastIndex(s[..|s| - 1], c)
  }

  /** The position of a `c` with no `c` after it is the last index of `c`. */
  lemma {:induction false} LastIndexAt(s: string, c: char, r: nat)
    requires r < |s| && s[r] == c
    requires forall j :: r < j < |s| ==> s[j] != c
    ensures LastIndex(s, c) == r
  {
    if s[|s| - 1] != c {
      LastIndexAt(s[..|s| - 1], c, r);
    }
  }

  /** ASCII lower-casing of one character. */
  function LowerChar(c: char): char
  {
    if 'A' <= c <= 'Z' then (c as int - 'A' as int + 'a' as int) as char else c
  }

  /** `toLowerCase`, on the characters that the upload filter can be affected by. */
  function ToLower(s: string): (r: string)
    ensures |r| == |s|
    ensures forall i :: 0 <= i < |s| ==> r[i] == LowerChar(s[i])
  {
    seq(|s|, i requires 0 <= i < |s| => LowerChar(s[i]))
  }

  /** Lower-casing commutes with prefixing a character. */
  lemma ToLowerCons(c: char, s: string)
    ensures ToLower([c] + s) == [LowerChar(c)] + ToLower(s)
  {
  }

  /** An occurrence in a tail is an occurrence one position further in the whole. */
  lemma OccursInTail(s: string, t: string, i: nat)
    requires |s| > 0 && OccursAt(s[1..], t, i)
    ensures OccursAt(s, t, i + 1)
  {
    assert s[i + 1..i + 1 + |t|] == s[1..][i..i + |t|];
  }

  /** `parts.join(sep)`. */
  function Join(parts: seq<string>, sep: string): string
  {
    if |parts| == 0 then ""
    else if |parts| == 1 then parts[0]
    else parts[0] + sep + Join(parts[1..], sep)
  }

  /** Decimal rendering of a natural number, as a template literal prints it. */
  function Decimal(n: nat): (r: string)
    ensures |r| >= 1
    ensures forall i :: 0 <= i < |r| ==> '0' <= r[i] <= '9'
  {
    if n < 10 then [('0' as int + n) as char]
    else Decimal(n / 10) + [('0' as int + n % 10) as char]
  }

  /** Reads a string of decimal digits back as a number. */
  function DigitsValue(s: string): nat
    requires forall i :: 0 <= i < |s| ==> '0' <= s[i] <= '9'
  {
    if s == [] then 0
    else 10 * DigitsValue(s[..|s| - 1]) + (s[|s| - 1] as int - '0' as int)
  }

  /** Rendering a placeholder number and reading it back gives the number again. */
  lemma {:induction false} DecimalRoundTrip(n: nat)
    ensures DigitsValue(Decimal(n)) == n
  {
    if n >= 10 {
      DecimalRoundTrip(n / 10);
      var d := Decimal(n / 10);
      var r := Decimal(n);
      assert r[..|r| - 1] == d;
    }
  }
}
