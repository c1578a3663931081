/** The Python string operations the summarizer relies on, over `string`
    (a sequence of characters): `str.isspace`, `str.lower`, `str.strip`,
    `str.replace(c, '')` and `str.join`. */
module PyText {

  datatype Option<+T> = None | Some(value: T)

  /** `c.isspace()`: the ASCII whitespace characters, the information
      separators 0x1C-0x1F and the Unicode spaces Python treats as whitespace. */
  predicate IsSpace(c: char)
  {
    var x := c as int;
    || x == 0x20 || 0x09 <= x <= 0x0D || 0x1C <= x <= 0x1F
    || x == 0x85 || x == 0xA0 || x == 0x1680 || 0x2000 <= x <= 0x200A
    || x == 0x2028 || x == 0x2029 || x == 0x202F || x == 0x205F || x == 0x3000
  }

  /** Lower-casing of one character (ASCII letters only). */
  function LowerChar(c: char): char
  {
    if 'A' <= c <= 'Z' then (c as int + 32) as char else c
  }

  /** `s.lower()`, character by character. */
  function Lower(s: string): string
  {
    seq(|s|, i requires 0 <= i < |s| => LowerChar(s[i]))
  }

  /** Lower-casing twice is lower-casing once: every result of `Lower` is
      already lower-case. */
  lemma LowerIdempotent(s: string)
    ensures Lower(Lower(s)) == Lower(s)
  {
  }

  /** First index at or after `i` that does not hold whitespace (`|s|` if none). */
  function SkipSpace(s: string, i: nat): (j: nat)
    requires i <= |s|
    ensures i <= j <= |s|
    ensures forall p :: i <= p < j ==> IsSpace(s[p])
    ensures j < |s| ==> !IsSpace(s[j])
    decreases |s| - i
  {
    if i == |s| || !IsSpace(s[i]) then i else SkipSpace(s, i + 1)
  }

  /** Smallest index `k >= lo` such that `s[k..j]` is all whitespace. */
  function TrimEnd(s: string, lo: nat, j: nat): (k: nat)
    requires lo <= j <= |s|
    ensures lo <= k <= j
    ensures forall p :: k <= p < j ==> IsSpace(s[p])
    ensures lo < k ==> !IsSpace(s[k - 1])
    decreases j
  {
    if j == lo || !IsSpace(s[j - 1]) then j else TrimEnd(s, lo, j - 1)
  }

  /** `s.strip()`: drops the leading and the trailing whitespace. */
  function Strip(s: string): (r: string)
    ensures exists a, b :: 0 <= a <= b <= |s| && r == s[a..b]
                           && (forall p :: 0 <= p < a ==> IsSpace(s[p]))
                           && (forall p :: b <= p < |s| ==> IsSpace(s[p]))
    ensures r == [] || (!IsSpace(r[0]) && !IsSpace(r[|r| - 1]))
  {
    var a := SkipSpace(s, 0);
    var b := TrimEnd(s, a, |s|);
    assert forall p :: b <= p < |s| ==> IsSpace(s[p]);
    s[a..b]
  }

  /** `s.replace(c, '')`. */
  function RemoveChar(s: string, c: char): (r: string)
    ensures c !in r
    ensures |r| <= |s|
    ensures c !in s ==> r == s
    ensures forall x :: x != c ==> multiset(r)[x] == multiset(s)[x]
  {
    if |s| == 0 then []
    else
      assert s == [s[0]] + s[1..];
      (if s[0] == c then [] else [s[0]]) + RemoveChar(s[1..], c)
  }

  /** Removing a character from the first part and from the second part
      separately gives the same text as removing it from both together. */
  lemma {:induction false} RemoveCharAppend(a: string, b: string, c: char)
    ensures RemoveChar(a + b, c) == RemoveChar(a, c) + RemoveChar(b, c)
  {
    if |a| > 0 {
      assert (a + b)[1..] == a[1..] + b;
      RemoveCharAppend(a[1..], b, c);
    } else {
      assert a + b == b;
    }
  }

  /** On one character `replace` deletes it if it is `c` and keeps it
      otherwise; with `RemoveCharAppend` this fixes the result, characters
      kept in their order. */
  lemma RemoveCharOne(x: char, c: char)
    ensures RemoveChar([x], c) == (if x == c then [] else [x])
  {
    assert [x][1..] == [];
  }

  /** `''.join(parts)`. */
  function Concat(parts: seq<string>): string
  {
    if |parts| == 0 then [] else Concat(parts[..|parts| - 1]) + parts[|parts| - 1]
  }

  /** Removing a character from a concatenation removes it from each part,
      the parts staying in their order. */
  lemma {:induction false} RemoveCharConcat(parts: seq<string>, c: char)
    ensures RemoveChar(Concat(parts), c)
            == Concat(seq(|parts|, p requires 0 <= p < |parts| => RemoveChar(parts[p], c)))
  {
    var cleaned := seq(|parts|, p requires 0 <= p < |parts| => RemoveChar(parts[p], c));
    if |parts| > 0 {
      var init := parts[..|parts| - 1];
      RemoveCharConcat(init, c);
      RemoveCharAppend(Concat(init), parts[|parts| - 1], c);
      assert cleaned[..|parts| - 1]
             == seq(|init|, p requires 0 <= p < |init| => RemoveChar(init[p], c));
    }
  }

  /** `sep.join(parts)`. */
  function Join(sep: string, parts: seq<string>): string
  {
    if |parts| == 0 then []
    else if |parts| == 1 then parts[0]
    else Join(sep, parts[..|parts| - 1]) + sep + parts[|parts| - 1]
  }

  /** `Concat` is `Join` with the empty separator, kept apart because its
      one-case recursion is what the removal lemmas above induct over. */
  lemma {:induction false} ConcatIsJoin(parts: seq<string>)
    ensures Concat(parts) == Join("", parts)
  {
    if |parts| == 1 {
      assert parts[..0] == [];
    } else if |parts| > 1 {
      ConcatIsJoin(parts[..|parts| - 1]);
    }
  }
}
