/**
  The handful of Python string and list operations the tool relies on,
  written over `string` (= `seq<char>`) and `seq<T>`:
  `list.index`, `str.split`, `str.join`, `str.strip`, `str.lower`, `int()`
  and `str()` of a non-negative integer.
 */
module Text {
  import opened Errors

  /** Position of the first occurrence of `x` in `s` (Python's `list.index`). */
  function IndexOf<T(==)>(s: seq<T>, x: T): (i: nat)
    requires x in s
    ensures i < |s| && s[i] == x
    ensures forall j :: 0 <= j < i ==> s[j] != x
  {
    if s[0] == x then 0 else 1 + IndexOf(s[1..], x)
  }

  /** `sep.join(parts)` for a one-character separator. */
  function Join(parts: seq<string>, sep: char): string
  {
    if |parts| == 0 then ""
    else if |parts| == 1 then parts[0]
    else parts[0] + [sep] + Join(parts[1..], sep)
  }

  /** `s.split(sep)`: the pieces between the occurrences of `sep`, empty pieces kept. */
  function Split(s: string, sep: char): (parts: seq<string>)
    ensures |parts| >= 1
    ensures sep in s <==> |parts| >= 2
    ensures forall k :: 0 <= k < |parts| ==> sep !in parts[k]
    decreases |s|
  {
    if sep !in s then [s]
    else
      var i := IndexOf(s, sep);
      var rest := Split(s[i + 1..], sep);
      assert ([s[..i]] + rest)[1..] == rest;
      [s[..i]] + rest
  }

  /** Joining the pieces of a split gives the string back. */
  lemma {:induction false} JoinSplit(s: string, sep: char)
    ensures Join(Split(s, sep), sep) == s
    decreases |s|
  {
    if sep in s {
      var i := IndexOf(s, sep);
      JoinSplit(s[i + 1..], sep);
      var parts := Split(s, sep);
      assert parts == [s[..i]] + Split(s[i + 1..], sep);
      assert parts[1..] == Split(s[i + 1..], sep);
      assert s == s[..i] + [sep] + s[i + 1..];
    }
  }

  /** Splitting undoes joining: the pieces of a join are the joined pieces. */
  lemma {:induction false} SplitJoin(parts: seq<string>, sep: char)
    requires |parts| >= 1
    requires forall k :: 0 <= k < |parts| ==> sep !in parts[k]
    ensures Split(Join(parts, sep), sep) == parts
    decreases |parts|
  {
    if |parts| > 1 {
      var rest := parts[1..];
      var s := Join(parts, sep);
      assert s == parts[0] + [sep] + Join(rest, sep);
      assert s[|parts[0]|] == sep;
      var i := IndexOf(s, sep);
      assert i == |parts[0]|;
      assert s[..i] == parts[0];
      assert s[i + 1..] == Join(rest, sep);
      SplitJoin(rest, sep);
    }
  }

  /** Joining one more piece appends the separator and that piece. */
  lemma {:induction false} JoinSnoc(parts: seq<string>, last: string, sep: char)
    requires |parts| >= 1
    ensures Join(parts + [last], sep) == Join(parts, sep) + [sep] + last
    decreases |parts|
  {
    if |parts| > 1 {
      assert (parts + [last])[1..] == parts[1..] + [last];
      JoinSnoc(parts[1..], last, sep);
    }
  }

  /** The last separator-free piece of a string is the last piece of its split. */
  lemma SplitSnoc(init: string, last: string, sep: char)
    requires sep !in last
    ensures Split(init + [sep] + last, sep) == Split(init, sep) + [last]
  {
    var parts := Split(init, sep) + [last];
    JoinSnoc(Split(init, sep), last, sep);
    JoinSplit(init, sep);
    assert forall k :: 0 <= k < |parts| ==> sep !in parts[k] by {
      forall k | 0 <= k < |parts|
        ensures sep !in parts[k]
      {
        if k < |parts| - 1 {
          assert parts[k] == Split(init, sep)[k];
        }
      }
    }
    SplitJoin(parts, sep);
  }

  /** A piece before the first separator comes out first. */
  lemma SplitCons(head: string, tail: string, sep: char)
    requires sep !in head
    ensures Split(head + [sep] + tail, sep) == [head] + Split(tail, sep)
  {
    var s := head + [sep] + tail;
    assert s[|head|] == sep;
    var i := IndexOf(s, sep);
    assert i == |head|;
    assert s[..i] == head;
    assert s[i + 1..] == tail;
  }

  /** A character absent from every piece and different from the separator is absent from the join. */
  lemma {:induction false} JoinAvoids(parts: seq<string>, sep: char, c: char)
    requires c != sep
    requires forall k :: 0 <= k < |parts| ==> c !in parts[k]
    ensures c !in Join(parts, sep)
    decreases |parts|
  {
    if |parts| > 1 {
      JoinAvoids(parts[1..], sep, c);
      assert c !in parts[0];
    }
  }

  /** The characters `str.strip()` removes: Python's Unicode whitespace. */
  predicate IsSpace(c: char)
  {
    var n := c as int;
    (9 <= n <= 13) || (28 <= n <= 32) || n == 0x85 || n == 0xA0 || n == 0x1680
    || (0x2000 <= n <= 0x200A) || n == 0x2028 || n == 0x2029 || n == 0x202F
    || n == 0x205F || n == 0x3000
  }

  /** The two whitespace sets the tool meets: the one `str.strip()` removes,
      and the one `int()` skips around a number. `int()` leaves the ASCII
      separators U+001C..U+001F in place (and then rejects them), although
      `strip()` counts them as whitespace. */
  datatype Whitespace = StripSpace | IntSpace

  predicate IsBlank(w: Whitespace, c: char)
  {
    IsSpace(c) && (w == IntSpace ==> !(28 <= c as int <= 31))
  }

  /** The first position at or after `i` that holds no whitespace, or `|s|`. */
  function SkipSpaces(w: Whitespace, s: string, i: nat): (j: nat)
    requires i <= |s|
    ensures i <= j <= |s|
    ensures forall k :: i <= k < j ==> IsBlank(w, s[k])
    ensures j < |s| ==> !IsBlank(w, s[j])
    decreases |s| - i
  {
    if i < |s| && IsBlank(w, s[i]) then SkipSpaces(w, s, i + 1) else i
  }

  /** The end of the text before the whitespace that runs back from `e`:
      the least `j <= e` such that `s[j..e]` is all whitespace. */
  function BackSpaces(w: Whitespace, s: string, e: nat): (j: nat)
    requires e <= |s|
    ensures j <= e
    ensures forall k :: j <= k < e ==> IsBlank(w, s[k])
    ensures j > 0 ==> !IsBlank(w, s[j - 1])
  {
    if e > 0 && IsBlank(w, s[e - 1]) then BackSpaces(w, s, e - 1) else e
  }

  /** `s` without its leading and trailing whitespace of the given kind. */
  function Trim(w: Whitespace, s: string): (r: string)
    ensures |r| <= |s|
    ensures |r| > 0 ==> !IsBlank(w, r[0]) && !IsBlank(w, r[|r| - 1])
  {
    var i := SkipSpaces(w, s, 0);
    if i == |s| then [] else s[i..BackSpaces(w, s, |s|)]
  }

  /** `s.strip()`: `s` without its leading and trailing whitespace. */
  function Strip(s: string): (r: string)
    ensures |r| <= |s|
    ensures |r| > 0 ==> !IsSpace(r[0]) && !IsSpace(r[|r| - 1])
  {
    Trim(StripSpace, s)
  }

  /** What a trim removes is whitespace only: the result is a slice of `s`
      with nothing but whitespace on either side of it. */
  lemma TrimSlice(w: Whitespace, s: string) returns (i: nat)
    ensures i + |Trim(w, s)| <= |s| && Trim(w, s) == s[i..i + |Trim(w, s)|]
    ensures forall k :: 0 <= k < i ==> IsBlank(w, s[k])
    ensures forall k :: i + |Trim(w, s)| <= k < |s| ==> IsBlank(w, s[k])
  {
    i := SkipSpaces(w, s, 0);
    if i < |s| {
      assert i < BackSpaces(w, s, |s|);
    }
  }

  /** A character absent from a string is absent from its trim. */
  lemma TrimAvoids(w: Whitespace, s: string, c: char)
    requires c !in s
    ensures c !in Trim(w, s)
  {
    var i := TrimSlice(w, s);
    var r := Trim(w, s);
    forall k | 0 <= k < |r|
      ensures r[k] != c
    {
      assert r[k] == s[i + k];
    }
  }

  /** A string that neither starts nor ends with whitespace is its own trim. */
  lemma TrimUnspaced(w: Whitespace, s: string)
    requires |s| > 0 ==> !IsBlank(w, s[0]) && !IsBlank(w, s[|s| - 1])
    ensures Trim(w, s) == s
  {
    if |s| > 0 {
      assert SkipSpaces(w, s, 0) == 0;
      assert BackSpaces(w, s, |s|) == |s|;
      assert s[0..|s|] == s;
    }
  }

  predicate IsUpper(c: char)
  {
    'A' <= c <= 'Z'
  }

  function LowerChar(c: char): char
  {
    if IsUpper(c) then (c as int + 32) as char else c
  }

  /** `s.lower()` on ASCII letters; every other character is kept. */
  function Lower(s: string): (r: string)
    ensures |r| == |s|
    ensures forall k :: 0 <= k < |s| && IsUpper(s[k]) ==> r[k] as int == s[k] as int + 32
    ensures forall k :: 0 <= k < |s| && !IsUpper(s[k]) ==> r[k] == s[k]
    ensures forall k :: 0 <= k < |r| ==> !IsUpper(r[k])
  {
    if s == [] then [] else [LowerChar(s[0])] + Lower(s[1..])
  }

  predicate IsDigit(c: char)
  {
    '0' <= c <= '9'
  }

  predicate AllDigits(s: string)
  {
    forall k :: 0 <= k < |s| ==> IsDigit(s[k])
  }

  function DigitValue(c: char): nat
    requires IsDigit(c)
  {
    c as int - '0' as int
  }

  /** The decimal value of a string of digits, most significant first. */
  function DigitsValue(s: string): nat
    requires AllDigits(s)
  {
    if |s| == 0 then 0 else 10 * DigitsValue(s[..|s| - 1]) + DigitValue(s[|s| - 1])
  }

  function DigitChar(d: nat): (c: char)
    requires d < 10
    ensures IsDigit(c) && DigitValue(c) == d
  {
    ('0' as int + d) as char
  }

  /** `str(n)` for a non-negative integer: its canonical decimal spelling. */
  function NatToString(n: nat): (s: string)
    ensures |s| > 0 && AllDigits(s)
    ensures n > 0 ==> s[0] != '0'
  {
    if n < 10 then [DigitChar(n)] else NatToString(n / 10) + [DigitChar(n % 10)]
  }

  /** The decimal value of `str(n)` is `n`. */
  lemma {:induction false} NatToStringValue(n: nat)
    ensures DigitsValue(NatToString(n)) == n
  {
    if n >= 10 {
      var init := NatToString(n / 10);
      var s := init + [DigitChar(n % 10)];
      assert s[..|s| - 1] == init;
      NatToStringValue(n / 10);
    }
  }

  /** `str(n)` for any integer. */
  function IntToString(n: int): string
  {
    if n < 0 then "-" + NatToString(-n) else NatToString(n)
  }

  /** `int(s)` on strings: surrounding whitespace (of `int()`'s kind), an
      optional sign, then at least one ASCII digit; anything else is not a
      number (`ValueError`). */
  function ParseInt(s: string): Option<int>
  {
    ParseSigned(Trim(IntSpace, s))
  }

  /** An optional sign followed by at least one digit. */
  function ParseSigned(t: string): Option<int>
  {
    if |t| > 0 && (t[0] == '-' || t[0] == '+') then
      if |t| > 1 && AllDigits(t[1..]) then
        var n: int := DigitsValue(t[1..]);
        Some(if t[0] == '-' then -n else n)
      else None
    else if |t| > 0 && AllDigits(t) then Some(DigitsValue(t))
    else None
  }

  /** `int(str(n)) == n`: every integer's own spelling parses back to it. */
  lemma ParseIntToString(n: int)
    ensures ParseInt(IntToString(n)) == Some(n)
  {
    var s := IntToString(n);
    var digits := NatToString(if n < 0 then -n else n);
    NatToStringValue(if n < 0 then -n else n);
    assert !IsBlank(IntSpace, s[0]) && !IsBlank(IntSpace, s[|s| - 1]);
    TrimUnspaced(IntSpace, s);
    if n < 0 {
      assert s[1..] == digits;
    }
  }

  /** `int()` ignores the whitespace around a number. */
  lemma ParseIntIgnoresSpaces(pre: string, s: string, post: string)
    requires forall k :: 0 <= k < |pre| ==> IsBlank(IntSpace, pre[k])
    requires forall k :: 0 <= k < |post| ==> IsBlank(IntSpace, post[k])
    requires |s| > 0 && !IsBlank(IntSpace, s[0]) && !IsBlank(IntSpace, s[|s| - 1])
    ensures ParseInt(pre + s + post) == ParseInt(s)
  {
    TrimUnspaced(IntSpace, s);
    TrimPadded(IntSpace, pre, s, post);
  }

  /** An ASCII separator U+001C..U+001F in front of a number is whitespace to
      `strip()` but makes `int()` fail. */
  lemma ParseIntRejectsSeparator(c: char, s: string)
    requires 28 <= c as int <= 31
    requires |s| > 0 && !IsSpace(s[0]) && !IsSpace(s[|s| - 1])
    ensures Strip([c] + s) == s
    ensures ParseInt([c] + s) == None
  {
    var t := [c] + s;
    assert t + [] == t;
    TrimPadded(StripSpace, [c], s, []);
    assert SkipSpaces(IntSpace, t, 0) == 0;
    assert Trim(IntSpace, t)[0] == c;
  }

  /** Trimming whitespace padding gives back what it padded. */
  lemma TrimPadded(w: Whitespace, pre: string, s: string, post: string)
    requires forall k :: 0 <= k < |pre| ==> IsBlank(w, pre[k])
    requires forall k :: 0 <= k < |post| ==> IsBlank(w, post[k])
    requires |s| > 0 && !IsBlank(w, s[0]) && !IsBlank(w, s[|s| - 1])
    ensures Trim(w, pre + s + post) == s
  {
    var t := pre + s + post;
    var a, b := |pre|, |pre| + |s|;
    assert t[a] == s[0] && t[b - 1] == s[|s| - 1];
    forall k | 0 <= k < a
      ensures IsBlank(w, t[k])
    {
      assert t[k] == pre[k];
    }
    forall k | b <= k < |t|
      ensures IsBlank(w, t[k])
    {
      assert t[k] == post[k - b];
    }
    assert SkipSpaces(w, t, 0) == a;
    assert BackSpaces(w, t, |t|) == b;
    assert t[a..b] == s;
  }
}
