/**
  The popular-pages scraper: it turns the HTML table of a wiki's most viewed
  pages into a text list, one page path followed by its view count per line
  of output. Each input line is tried against two patterns anchored at its
  start: a link cell gives the page path and a space, a right-aligned number
  cell gives the count with its thousands separators dropped and a line feed.

  The input is the file's lines as they are read (each with its line feed,
  except possibly the last); the output is the text written.
*/
module Popular {
  import opened Wrappers
  import opened Text

  /** What comes before a page path: the start of a link cell. */
  const HrefOpen: string := "<td><a href=\""
  /** What must follow a page path. */
  const HrefClose: string := "\" title"
  /** What comes before a view count: the start of a right-aligned cell. */
  const CountOpen: string := "<td align=\"right\">"
  /** What must follow a view count. */
  const CountClose: string := "</"

  predicate IsQuote(c: char)
  {
    c == '"'
  }

  /** The characters of a view count: digits and the thousands separator. */
  predicate IsCountChar(c: char)
  {
    IsDigit(c) || c == ','
  }

  predicate NotCountChar(c: char)
  {
    !IsCountChar(c)
  }

  // ---------------------------------------------------------------------------
  // The two patterns
  // ---------------------------------------------------------------------------

  /**
    The page path of a line matching <td><a href="([^"]+)" title at its
    start: the longest run of non-quote characters after the opening, which
    must be non-empty and followed by the closing. A shorter run would be
    followed by a non-quote character, so backtracking finds no other match.
  */
  function MatchHref(line: string): Option<string>
  {
    if !HasPrefix(line, HrefOpen) then None
    else
      var rest := line[|HrefOpen|..];
      var n := WordLength(rest, IsQuote);
      if n > 0 && HasPrefix(rest[n..], HrefClose) then Some(rest[..n]) else None
  }

  /**
    The count of a line matching <td align="right">([0-9,]+)</ at its start:
    the longest run of digits and commas after the opening, non-empty and
    followed by the closing.
  */
  function MatchCount(line: string): (r: Option<string>)
    ensures r.Some? ==> MatchHref(line).None?
  {
    if !HasPrefix(line, CountOpen) then None
    else
      assert !HasPrefix(line, HrefOpen) by {
        assert line[4] == CountOpen[4];
        assert |HrefOpen| <= |line| ==> line[..|HrefOpen|][4] == line[4];
      }
      var rest := line[|CountOpen|..];
      var n := WordLength(rest, NotCountChar);
      if n > 0 && HasPrefix(rest[n..], CountClose) then Some(rest[..n]) else None
  }

  /** A matched path is non-empty and quote-free, and the line starts with the opening, the path and the closing. */
  lemma MatchHrefSound(line: string)
    requires MatchHref(line).Some?
    ensures var p := MatchHref(line).value;
      IsWord(p, IsQuote) && HasPrefix(line, HrefOpen + p + HrefClose)
  {
    var rest := line[|HrefOpen|..];
    var n := WordLength(rest, IsQuote);
    assert rest[n..] == line[|HrefOpen| + n..];
    assert rest[..n] == line[|HrefOpen|..|HrefOpen| + n];
    HasPrefixThree(line, HrefOpen, n, HrefClose);
  }

  /** Every line that starts with the opening, a non-empty quote-free path and the closing matches, whatever follows. */
  lemma MatchHrefComplete(p: string, tail: string)
    requires IsWord(p, IsQuote)
    ensures MatchHref(HrefOpen + p + HrefClose + tail) == Some(p)
  {
    var line := HrefOpen + p + HrefClose + tail;
    var rest := line[|HrefOpen|..];
    assert line[..|HrefOpen|] == HrefOpen;
    assert rest == p + (HrefClose + tail);
    WordLengthOfWordThen(p, HrefClose + tail, IsQuote);
    assert rest[..|p|] == p;
    assert rest[|p|..] == HrefClose + tail;
  }

  /** A matched count is non-empty and made of digits and commas, and the line starts with the opening, the count and the closing. */
  lemma MatchCountSound(line: string)
    requires MatchCount(line).Some?
    ensures var c := MatchCount(line).value;
      IsWord(c, NotCountChar) && HasPrefix(line, CountOpen + c + CountClose)
  {
    var rest := line[|CountOpen|..];
    var n := WordLength(rest, NotCountChar);
    assert rest[n..] == line[|CountOpen| + n..];
    assert rest[..n] == line[|CountOpen|..|CountOpen| + n];
    HasPrefixThree(line, CountOpen, n, CountClose);
  }

  /** Every line that starts with the opening, a non-empty run of digits and commas and the closing matches, whatever follows. */
  lemma MatchCountComplete(c: string, tail: string)
    requires IsWord(c, NotCountChar)
    ensures MatchCount(CountOpen + c + CountClose + tail) == Some(c)
  {
    var line := CountOpen + c + CountClose + tail;
    var rest := line[|CountOpen|..];
    assert line[..|CountOpen|] == CountOpen;
    assert rest == c + (CountClose + tail);
    WordLengthOfWordThen(c, CountClose + tail, NotCountChar);
    assert rest[..|c|] == c;
    assert rest[|c|..] == CountClose + tail;
  }

  // ---------------------------------------------------------------------------
  // The conversion
  // ---------------------------------------------------------------------------

  /**
    What one input line contributes to the output: a matched path and a
    space; otherwise a matched count without commas and a line feed;
    otherwise nothing.
  */
  function Emit(line: string): (e: string)
    ensures MatchHref(line).Some? ==> e == MatchHref(line).value + " "
    ensures MatchHref(line).None? && MatchCount(line).Some? ==>
      e == RemoveAll(MatchCount(line).value, ',') + "\n" && AllDigits(e[..|e| - 1])
    ensures MatchHref(line).None? && MatchCount(line).None? ==> e == ""
  {
    match MatchHref(line)
    case Some(path) => path + " "
    case None =>
      match MatchCount(line)
      case Some(count) =>
        var digits := RemoveAll(count, ',');
        assert AllDigits(digits) by {
          forall k | 0 <= k < |digits|
            ensures IsDigit(digits[k])
          {
            assert digits[k] in multiset(digits);
            assert digits[k] in count;
          }
        }
        assert (digits + "\n")[..|digits|] == digits;
        digits + "\n"
      case None => ""
  }

  /** The output for the lines read: their contributions in order. */
  function Convert(lines: seq<string>): string
    decreases |lines|
  {
    if |lines| == 0 then ""
    else Convert(lines[..|lines| - 1]) + Emit(lines[|lines| - 1])
  }

  /** The output for two runs of lines is the output for the first followed by that for the second. */
  lemma {:induction false} ConvertAppend(a: seq<string>, b: seq<string>)
    ensures Convert(a + b) == Convert(a) + Convert(b)
    decreases |b|
  {
    if |b| == 0 {
      assert a + b == a;
    } else {
      var front := b[..|b| - 1];
      var last := b[|b| - 1];
      assert a + b == (a + front) + [last];
      assert b == front + [last];
      ConvertAppend(a, front);
      ConvertSnoc(a + front, last);
      ConvertSnoc(front, last);
      ConcatAssoc(Convert(a), Convert(front), Emit(last));
    }
  }

  /** One more line adds its contribution at the end. */
  lemma ConvertSnoc(lines: seq<string>, line: string)
    ensures Convert(lines + [line]) == Convert(lines) + Emit(line)
  {
    assert (lines + [line])[..|lines|] == lines;
  }

  /**
    The conversion loop: each line is tried against the path pattern, then the
    count pattern, and what it contributes is written out.
  */
  method WritePopular(lines: seq<string>) returns (written: string)
    ensures written == Convert(lines)
  {
    written := "";
    for k := 0 to |lines|
      invariant written == Convert(lines[..k])
    {
      var line := lines[k];
      assert lines[..k + 1][..k] == lines[..k];
      var m := MatchHref(line);
      if m.Some? {
        written := written + m.value + " ";
      } else {
        var c := MatchCount(line);
        if c.Some? {
          written := written + RemoveAll(c.value, ',') + "\n";
        }
      }
    }
    assert lines[..|lines|] == lines;
  }
}
