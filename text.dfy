/**
  Sequence utilities with the semantics of the Go and Python library calls the
  modelled code relies on: searching for one element, splitting on a single
  separator, splitting into whitespace-separated fields, joining, removing and
  replacing one element, ASCII lower-casing and decimal digits.
  They are generic over the element type so that both Go byte slices (seq<bv8>)
  and text (string) can use them.
*/
module Text {

  // ---------------------------------------------------------------------------
  // Searching
  // ---------------------------------------------------------------------------

  /** Index of the first occurrence of x in s, or -1 (Go's bytes.IndexByte). */
  function IndexOf<T(==)>(s: seq<T>, x: T): (i: int)
    ensures -1 <= i < |s|
    ensures i == -1 <==> x !in s
    ensures 0 <= i ==> s[i] == x && x !in s[..i]
    decreases |s|
  {
    if |s| == 0 then -1
    else if s[0] == x then 0
    else
      var j := IndexOf(s[1..], x);
      if j == -1 then -1
      else
        assert s[..j + 1] == [s[0]] + s[1..][..j];
        j + 1
  }

  /** The first occurrence of x in a, x, b is the one after a. */
  lemma IndexOfAfter<T>(a: seq<T>, x: T, b: seq<T>)
    requires x !in a
    ensures IndexOf(a + [x] + b, x) == |a|
  {
    var s := a + [x] + b;
    assert s[|a|] == x;
    var i := IndexOf(s, x);
    assert forall k | 0 <= k < |a| :: s[k] == a[k];
    assert forall k | |a| < k <= |s| :: s[..k][|a|] == x;
  }

  /** s starts with p (Go's strings.HasPrefix). */
  predicate HasPrefix<T(==)>(s: seq<T>, p: seq<T>)
  {
    |p| <= |s| && s[..|p|] == p
  }

  /** sub occurs somewhere in s (Go's strings.Contains). */
  predicate Contains<T(==)>(s: seq<T>, sub: seq<T>)
    decreases |s|
  {
    HasPrefix(s, sub) || (|s| > 0 && Contains(s[1..], sub))
  }

  // ---------------------------------------------------------------------------
  // Splitting on one separator and joining (Go's strings.Split, bytes.Split,
  // strings.Join with a one-element separator)
  // ---------------------------------------------------------------------------

  /** The parts joined with sep between neighbours; no parts give the empty sequence. */
  function Join<T>(parts: seq<seq<T>>, sep: T): seq<T>
    decreases |parts|
  {
    if |parts| == 0 then []
    else if |parts| == 1 then parts[0]
    else parts[0] + [sep] + Join(parts[1..], sep)
  }

  /** An element other than the separator occurs in a join only if it occurs in a part. */
  lemma {:induction false} JoinFree<T>(parts: seq<seq<T>>, sep: T, x: T)
    requires x != sep
    requires forall k | 0 <= k < |parts| :: x !in parts[k]
    ensures x !in Join(parts, sep)
    decreases |parts|
  {
    if |parts| > 1 {
      JoinFree(parts[1..], sep, x);
    }
  }

  /** The pieces of s between occurrences of sep: one more piece than there are separators. */
  function Split<T(==)>(s: seq<T>, sep: T): (parts: seq<seq<T>>)
    ensures |parts| >= 1
    ensures forall k | 0 <= k < |parts| :: sep !in parts[k]
    ensures Join(parts, sep) == s
    decreases |s|
  {
    var i := IndexOf(s, sep);
    if i == -1 then [s]
    else
      var rest := Split(s[i + 1..], sep);
      var parts := [s[..i]] + rest;
      assert parts[1..] == rest;
      assert Join(parts, sep) == s[..i] + [sep] + Join(rest, sep);
      assert s == s[..i] + [sep] + s[i + 1..];
      parts
  }

  /** Splitting at a separator that follows a separator-free prefix. */
  lemma {:induction false} SplitCons<T>(a: seq<T>, sep: T, rest: seq<T>)
    requires sep !in a
    ensures Split(a + [sep] + rest, sep) == [a] + Split(rest, sep)
  {
    var s := a + [sep] + rest;
    var i := IndexOf(s, sep);
    assert s[|a|] == sep;
    assert i == |a|;
    assert s[..i] == a;
    assert s[i + 1..] == rest;
  }

  /** Splitting the join of separator-free parts gives the parts back. */
  lemma {:induction false} SplitJoin<T>(parts: seq<seq<T>>, sep: T)
    requires |parts| >= 1
    requires forall k | 0 <= k < |parts| :: sep !in parts[k]
    ensures Split(Join(parts, sep), sep) == parts
    decreases |parts|
  {
    if |parts| == 1 {
      assert IndexOf(parts[0], sep) == -1;
    } else {
      SplitJoin(parts[1..], sep);
      SplitCons(parts[0], sep, Join(parts[1..], sep));
      assert parts == [parts[0]] + parts[1..];
    }
  }

  /** Splitting separator-free parts joined and followed by more text gives the parts, then the pieces of that text. */
  lemma {:induction false} SplitJoinThen<T>(parts: seq<seq<T>>, sep: T, rest: seq<T>)
    requires |parts| >= 1
    requires forall k | 0 <= k < |parts| :: sep !in parts[k]
    ensures Split(Join(parts, sep) + [sep] + rest, sep) == parts + Split(rest, sep)
    decreases |parts|
  {
    if |parts| == 1 {
      SplitCons(parts[0], sep, rest);
    } else {
      var tail := Join(parts[1..], sep) + [sep] + rest;
      JoinThen(parts, sep, rest);
      SplitCons(parts[0], sep, tail);
      SplitJoinThen(parts[1..], sep, rest);
      ConsAppend(parts, Split(rest, sep));
    }
  }

  lemma JoinThen<T>(parts: seq<seq<T>>, sep: T, rest: seq<T>)
    requires |parts| >= 2
    ensures Join(parts, sep) + [sep] + rest == parts[0] + [sep] + (Join(parts[1..], sep) + [sep] + rest)
  {
    var head, tail := parts[0] + [sep], Join(parts[1..], sep);
    assert Join(parts, sep) == head + tail;
    ConcatAssoc(head, tail, [sep]);
    ConcatAssoc(head, tail + [sep], rest);
  }

  /** A prefix, then a piece of what follows it, then a prefix of what follows that, together prefix the sequence. */
  lemma HasPrefixThree<T>(s: seq<T>, open: seq<T>, n: nat, close: seq<T>)
    requires HasPrefix(s, open) && |open| + n <= |s| && HasPrefix(s[|open| + n..], close)
    ensures HasPrefix(s, open + s[|open|..|open| + n] + close)
  {
    var k := |open| + n;
    assert s[..k + |close|] == s[..|open|] + s[|open|..k] + s[k..][..|close|];
  }

  /** Concatenation is associative. */
  lemma ConcatAssoc<T>(x: seq<T>, y: seq<T>, z: seq<T>)
    ensures (x + y) + z == x + (y + z)
  {
  }

  lemma ConsAppend<T>(parts: seq<T>, more: seq<T>)
    requires |parts| >= 1
    ensures [parts[0]] + (parts[1..] + more) == parts + more
  {
    assert parts == [parts[0]] + parts[1..];
  }

  /** The first piece of a split starts with every separator-free prefix of the text. */
  lemma SplitHeadPrefix<T>(s: seq<T>, sep: T, p: seq<T>)
    requires HasPrefix(s, p) && sep !in p
    ensures HasPrefix(Split(s, sep)[0], p)
  {
    var i := IndexOf(s, sep);
    if i != -1 {
      assert forall k | 0 <= k < |p| :: s[k] == p[k];
      assert |p| <= i;
      assert s[..i][..|p|] == s[..|p|];
    }
  }

  /** Joining one more part at the end. */
  lemma {:induction false} JoinSnoc<T>(parts: seq<seq<T>>, p: seq<T>, sep: T)
    requires |parts| >= 1
    ensures Join(parts + [p], sep) == Join(parts, sep) + [sep] + p
    decreases |parts|
  {
    if |parts| == 1 {
      assert (parts + [p])[1..] == [p];
    } else {
      assert (parts + [p])[1..] == parts[1..] + [p];
      JoinSnoc(parts[1..], p, sep);
    }
  }

  // ---------------------------------------------------------------------------
  // Whitespace-separated fields (Go's strings.Fields and bytes.Fields)
  // ---------------------------------------------------------------------------

  /** A field: non-empty and free of whitespace. */
  predicate IsWord<T>(w: seq<T>, isSpace: T -> bool)
  {
    |w| > 0 && forall k | 0 <= k < |w| :: !isSpace(w[k])
  }

  /** Length of the longest whitespace-free prefix of s. */
  function WordLength<T>(s: seq<T>, isSpace: T -> bool): (n: nat)
    ensures n <= |s|
    ensures forall k | 0 <= k < n :: !isSpace(s[k])
    ensures n < |s| ==> isSpace(s[n])
    decreases |s|
  {
    if |s| == 0 || isSpace(s[0]) then 0 else 1 + WordLength(s[1..], isSpace)
  }

  /** The longest white-space-free prefix of a word followed by white space is the word. */
  lemma {:induction false} WordLengthOfWordThen<T>(w: seq<T>, rest: seq<T>, isSpace: T -> bool)
    requires IsWord(w, isSpace)
    requires |rest| > 0 && isSpace(rest[0])
    ensures WordLength(w + rest, isSpace) == |w|
    decreases |w|
  {
    if |w| > 1 {
      assert (w + rest)[1..] == w[1..] + rest;
      WordLengthOfWordThen(w[1..], rest, isSpace);
    } else {
      assert (w + rest)[1..] == rest;
    }
  }

  /** The maximal whitespace-free runs of s, in order. */
  function Fields<T>(s: seq<T>, isSpace: T -> bool): (fs: seq<seq<T>>)
    ensures forall k | 0 <= k < |fs| :: IsWord(fs[k], isSpace)
    decreases |s|
  {
    if |s| == 0 then []
    else if isSpace(s[0]) then Fields(s[1..], isSpace)
    else
      var n := WordLength(s, isSpace);
      [s[..n]] + Fields(s[n..], isSpace)
  }

  /** A word followed by whitespace (or nothing) is the first field. */
  lemma {:induction false} FieldsOfWordThen<T>(w: seq<T>, rest: seq<T>, isSpace: T -> bool)
    requires IsWord(w, isSpace)
    requires rest == [] || isSpace(rest[0])
    ensures Fields(w + rest, isSpace) == [w] + Fields(rest, isSpace)
  {
    var s := w + rest;
    var n := WordLength(s, isSpace);
    assert forall k | 0 <= k < |w| :: s[k] == w[k] && !isSpace(s[k]);
    assert |rest| > 0 ==> s[|w|] == rest[0];
    assert n == |w|;
    assert s[..n] == w;
    assert s[n..] == rest;
  }

  /** Joining words with one whitespace separator and splitting into fields gives the words back. */
  lemma {:induction false} FieldsOfJoin<T>(words: seq<seq<T>>, sep: T, isSpace: T -> bool)
    requires isSpace(sep)
    requires forall k | 0 <= k < |words| :: IsWord(words[k], isSpace)
    ensures Fields(Join(words, sep), isSpace) == words
    decreases |words|
  {
    if |words| == 0 {
    } else if |words| == 1 {
      FieldsOfWordThen(words[0], [], isSpace);
      assert words[0] + [] == words[0];
    } else {
      var rest := Join(words[1..], sep);
      FieldsOfJoin(words[1..], sep, isSpace);
      FieldsOfWordThen(words[0], [sep] + rest, isSpace);
      assert words[0] + [sep] + rest == words[0] + ([sep] + rest);
      assert ([sep] + rest)[1..] == rest;
      assert words == [words[0]] + words[1..];
    }
  }

  /** A single word has exactly one field: itself. */
  lemma FieldsOfWord<T>(w: seq<T>, isSpace: T -> bool)
    requires IsWord(w, isSpace)
    ensures Fields(w, isSpace) == [w]
  {
    FieldsOfWordThen(w, [], isSpace);
    assert w + [] == w;
  }

  // ---------------------------------------------------------------------------
  // Removing and replacing one element everywhere (Go's strings.Replace with n = -1)
  // ---------------------------------------------------------------------------

  /** s with every x deleted. */
  function RemoveAll<T(==)>(s: seq<T>, x: T): (r: seq<T>)
    ensures x !in r
    ensures multiset(r) == multiset(s)[x := 0]
    decreases |s|
  {
    if |s| == 0 then []
    else if s[0] == x then
      assert s == [s[0]] + s[1..];
      RemoveAll(s[1..], x)
    else
      assert s == [s[0]] + s[1..];
      [s[0]] + RemoveAll(s[1..], x)
  }

  /** Removing x from s followed by one x removes that x too. */
  lemma {:induction false} RemoveAllSnoc<T>(s: seq<T>, x: T)
    ensures RemoveAll(s + [x], x) == RemoveAll(s, x)
    decreases |s|
  {
    if |s| > 0 {
      assert (s + [x])[1..] == s[1..] + [x];
      RemoveAllSnoc(s[1..], x);
    } else {
      assert [x][1..] == [];
    }
  }

  /** Removing an element that does not occur changes nothing. */
  lemma {:induction false} RemoveAllAbsent<T>(s: seq<T>, x: T)
    requires x !in s
    ensures RemoveAll(s, x) == s
    decreases |s|
  {
    if |s| > 0 {
      RemoveAllAbsent(s[1..], x);
      assert s == [s[0]] + s[1..];
    }
  }

  /** s with every x replaced by y. */
  function ReplaceAll<T(==)>(s: seq<T>, x: T, y: T): (r: seq<T>)
    ensures |r| == |s|
    ensures forall k | 0 <= k < |s| :: r[k] == (if s[k] == x then y else s[k])
    decreases |s|
  {
    if |s| == 0 then []
    else [if s[0] == x then y else s[0]] + ReplaceAll(s[1..], x, y)
  }

  // ---------------------------------------------------------------------------
  // Letters and digits
  // ---------------------------------------------------------------------------

  /** The ASCII lower-case form of one character. */
  function LowerChar(c: char): char
  {
    if 'A' <= c <= 'Z' then (c as int + 32) as char else c
  }

  /** The ASCII lower-case form of a text (Go's strings.ToLower restricted to ASCII). */
  function ToLower(s: string): (r: string)
    ensures |r| == |s|
    ensures forall k | 0 <= k < |s| :: r[k] == LowerChar(s[k])
  {
    seq(|s|, k requires 0 <= k < |s| => LowerChar(s[k]))
  }

  /** Lower-casing twice is lower-casing once. */
  lemma ToLowerIdempotent(s: string)
    ensures ToLower(ToLower(s)) == ToLower(s)
  {
  }

  predicate IsDigit(c: char)
  {
    '0' <= c <= '9'
  }

  predicate AllDigits(s: string)
  {
    forall k | 0 <= k < |s| :: IsDigit(s[k])
  }

  /** The value of a string of decimal digits (leading zeros allowed). */
  function DecimalValue(s: string): nat
    requires AllDigits(s)
    decreases |s|
  {
    if |s| == 0 then 0
    else DecimalValue(s[..|s| - 1]) * 10 + (s[|s| - 1] as int - '0' as int)
  }

  /** The shortest decimal spelling of n. */
  function DecimalString(n: nat): (s: string)
    ensures |s| >= 1 && AllDigits(s)
    ensures DecimalValue(s) == n
    decreases n
  {
    var last := ((n % 10) + '0' as int) as char;
    if n < 10 then
      assert [last][..0] == [];
      [last]
    else
      var s := DecimalString(n / 10) + [last];
      assert s[..|s| - 1] == DecimalString(n / 10);
      s
  }
}
