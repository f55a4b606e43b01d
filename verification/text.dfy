/** String helpers shared by the DDL compiler and the parser: backquoting,
    Kotlin's joinToString, prefix tests, decimal rendering, and the small
    scanners that read generated SQL back. */
module Text {
  import opened Wrappers

  /** Wraps an identifier in backquotes, as every generated table, column
      and index name is. The source does not escape inner backquotes. */
  function Quote(s: string): string
  {
    "`" + s + "`"
  }

  predicate NoBackquote(s: string)
  {
    '`' !in s
  }

  predicate StartsWith(s: string, p: string)
  {
    |p| <= |s| && s[..|p|] == p
  }

  predicate EndsWith(s: string, p: string)
  {
    |p| <= |s| && s[|s| - |p|..] == p
  }

  /** Kotlin's `joinToString(sep)`: the elements in order, `sep` between
      neighbours, the empty string for an empty list. */
  function Join(sep: string, xs: seq<string>): string
  {
    if |xs| == 0 then ""
    else if |xs| == 1 then xs[0]
    else xs[0] + sep + Join(sep, xs[1..])
  }

  function QuoteAll(xs: seq<string>): (r: seq<string>)
    ensures |r| == |xs|
  {
    seq(|xs|, i requires 0 <= i < |xs| => Quote(xs[i]))
  }

  /** `xs.joinToString { it.quote() }`: backquoted names separated by ", ". */
  function QuotedList(xs: seq<string>): string
  {
    Join(", ", QuoteAll(xs))
  }

  /** Kotlin's `isBlank()`: every character is whitespace in the sense of
      `Char.isWhitespace` on the JVM (Java whitespace or a Unicode space
      separator). The empty string is blank. */
  predicate IsBlank(s: string)
  {
    forall i :: 0 <= i < |s| ==> IsWhitespace(s[i])
  }

  predicate IsWhitespace(c: char)
  {
    || c == ' ' || c == '\t' || c == '\n' || c == '\r'
    || c == '\U{000B}' || c == '\U{000C}'
    || ('\U{001C}' <= c <= '\U{001F}')
    || c == '\U{00A0}' || c == '\U{1680}'
    || ('\U{2000}' <= c <= '\U{200A}')
    || c == '\U{2028}' || c == '\U{2029}' || c == '\U{202F}' || c == '\U{205F}' || c == '\U{3000}'
  }

  function Digit(d: nat): (c: char)
    requires d < 10
    ensures '0' <= c <= '9'
  {
    "0123456789"[d]
  }

  /** Decimal rendering of a non-negative integer, as string templates print an Int. */
  function NatToString(n: nat): (r: string)
    ensures |r| > 0
    ensures forall i :: 0 <= i < |r| ==> '0' <= r[i] <= '9'
    ensures n < 10 <==> |r| == 1
  {
    if n < 10 then [Digit(n)] else NatToString(n / 10) + [Digit(n % 10)]
  }

  /** Reads the decimal number written by NatToString back. */
  function DigitsValue(s: string): nat
    requires forall i :: 0 <= i < |s| ==> '0' <= s[i] <= '9'
  {
    if |s| == 0 then 0 else 10 * DigitsValue(s[..|s| - 1]) + (s[|s| - 1] as int - '0' as int)
  }

  lemma {:induction false} NatToStringRoundTrip(n: nat)
    ensures DigitsValue(NatToString(n)) == n
  {
    if n >= 10 {
      var r := NatToString(n);
      assert r[..|r| - 1] == NatToString(n / 10);
      NatToStringRoundTrip(n / 10);
    }
  }

  function BoolToString(b: bool): string
  {
    if b then "true" else "false"
  }

  // ---------------------------------------------------------------------
  // Scanners: read generated text back, front to back.
  // ---------------------------------------------------------------------

  /** What follows the literal `p`, when `s` starts with it. */
  function Expect(s: string, p: string): (r: Option<string>)
    ensures r.Some? <==> StartsWith(s, p)
    ensures r.Some? ==> s == p + r.value
  {
    if StartsWith(s, p) then
      assert s == s[..|p|] + s[|p|..];
      Some(s[|p|..])
    else None
  }

  /** Consumes an optional literal: whether it was there, and the rest. */
  function Optional(s: string, p: string): (r: (bool, string))
    ensures r.0 <==> StartsWith(s, p)
    ensures s == (if r.0 then p else "") + r.1
  {
    if StartsWith(s, p) then
      assert s == s[..|p|] + s[|p|..];
      (true, s[|p|..])
    else (false, s)
  }

  /** Reading a literal back off the text it starts. */
  lemma ConcatPrefix(p: string, r: string)
    ensures StartsWith(p + r, p)
    ensures Expect(p + r, p) == Some(r)
    ensures Optional(p + r, p) == (true, r)
  {
    assert (p + r)[..|p|] == p;
    assert (p + r)[|p|..] == r;
  }

  /** A text that differs from `p` at position `i` does not start with `p`. */
  lemma NotPrefixAt(s: string, p: string, i: nat)
    requires i < |p| && i < |s| && s[i] != p[i]
    ensures !StartsWith(s, p)
    ensures Expect(s, p) == None
    ensures Optional(s, p) == (false, s)
  {
  }

  /** Position of the first `c` in `s`, or `|s|` when there is none. */
  function IndexOf(s: string, c: char): (r: nat)
    ensures r <= |s|
    ensures r < |s| ==> s[r] == c
    ensures forall i :: 0 <= i < r ==> s[i] != c
  {
    if |s| == 0 then 0
    else if s[0] == c then 0
    else 1 + IndexOf(s[1..], c)
  }

  /** Reads one backquoted identifier off the front of `s`: the identifier
      and the text after its closing backquote. */
  function TakeQuoted(s: string): (r: Option<(string, string)>)
    ensures r.Some? ==> s == Quote(r.value.0) + r.value.1 && NoBackquote(r.value.0)
  {
    if |s| == 0 || s[0] != '`' then None
    else
      var body := s[1..];
      var k := IndexOf(body, '`');
      if k == |body| then None
      else
        assert s == Quote(body[..k]) + body[k + 1..];
        Some((body[..k], body[k + 1..]))
  }

  lemma TakeQuotedOfQuote(n: string, rest: string)
    requires NoBackquote(n)
    ensures TakeQuoted(Quote(n) + rest) == Some((n, rest))
  {
    var s := Quote(n) + rest;
    var body := s[1..];
    assert body == n + ("`" + rest);
    assert forall i :: 0 <= i < |n| ==> body[i] == n[i];
    var k := IndexOf(body, '`');
    assert body[|n|] == '`';
    assert k == |n|;
    assert body[..k] == n;
    assert body[k + 1..] == rest;
  }

  /** Reads a non-empty list of backquoted names separated by ", ". */
  function DecodeQuotedItems(s: string): (r: Option<(seq<string>, string)>)
    decreases |s|
  {
    match TakeQuoted(s)
    case None => None
    case Some((n, rest)) =>
      if StartsWith(rest, ", ") then
        match DecodeQuotedItems(rest[2..])
        case None => None
        case Some((ns, tail)) => Some(([n] + ns, tail))
      else Some(([n], rest))
  }

  /** Reads a possibly empty list written by QuotedList off the front of `s`. */
  function DecodeQuotedList(s: string): Option<(seq<string>, string)>
  {
    if StartsWith(s, "`") then DecodeQuotedItems(s) else Some(([], s))
  }

  lemma QuotedListCons(xs: seq<string>)
    requires |xs| > 1
    ensures QuotedList(xs) == Quote(xs[0]) + ", " + QuotedList(xs[1..])
  {
    assert QuoteAll(xs[1..]) == QuoteAll(xs)[1..];
  }

  lemma DecodeQuotedItemsCons(n: string, tail: string)
    requires NoBackquote(n)
    ensures DecodeQuotedItems(Quote(n) + ", " + tail) ==
      match DecodeQuotedItems(tail)
      case None => None
      case Some((ns, t)) => Some(([n] + ns, t))
  {
    var after := ", " + tail;
    assert Quote(n) + ", " + tail == Quote(n) + after;
    TakeQuotedOfQuote(n, after);
    assert StartsWith(after, ", ");
    assert after[2..] == tail;
  }

  lemma DecodeQuotedItemsSingle(n: string, rest: string)
    requires NoBackquote(n) && !StartsWith(rest, ", ")
    ensures DecodeQuotedItems(Quote(n) + rest) == Some(([n], rest))
  {
    TakeQuotedOfQuote(n, rest);
  }

  lemma AppendAssoc3<T>(a: seq<T>, b: seq<T>, c: seq<T>, d: seq<T>)
    ensures (a + b + c) + d == a + b + (c + d)
  {
  }

  lemma DecodeQuotedItemsStep(xs: seq<string>, rest: string)
    requires |xs| > 1 && NoBackquote(xs[0])
    requires DecodeQuotedItems(QuotedList(xs[1..]) + rest) == Some((xs[1..], rest))
    ensures DecodeQuotedItems(QuotedList(xs) + rest) == Some((xs, rest))
  {
    var tail := QuotedList(xs[1..]);
    QuotedListCons(xs);
    AppendAssoc3(Quote(xs[0]), ", ", tail, rest);
    var s := Quote(xs[0]) + ", " + (tail + rest);
    assert QuotedList(xs) + rest == s;
    DecodeQuotedItemsCons(xs[0], tail + rest);
    assert DecodeQuotedItems(s) == Some(([xs[0]] + xs[1..], rest));
    assert [xs[0]] + xs[1..] == xs;
  }

  lemma {:induction false} DecodeQuotedItemsRoundTrip(xs: seq<string>, rest: string)
    requires |xs| > 0
    requires forall i :: 0 <= i < |xs| ==> NoBackquote(xs[i])
    requires !StartsWith(rest, ", ")
    ensures DecodeQuotedItems(QuotedList(xs) + rest) == Some((xs, rest))
    decreases |xs|
  {
    if |xs| == 1 {
      assert QuotedList(xs) == Quote(xs[0]);
      DecodeQuotedItemsSingle(xs[0], rest);
      assert [xs[0]] == xs;
    } else {
      DecodeQuotedItemsRoundTrip(xs[1..], rest);
      DecodeQuotedItemsStep(xs, rest);
    }
  }

  /** Reading a QuotedList back yields exactly the names written, provided
      no name holds a backquote and the text after the list does not look
      like the continuation of the list. */
  lemma QuotedListRoundTrip(xs: seq<string>, rest: string)
    requires forall i :: 0 <= i < |xs| ==> NoBackquote(xs[i])
    requires !StartsWith(rest, ", ") && !StartsWith(rest, "`")
    ensures DecodeQuotedList(QuotedList(xs) + rest) == Some((xs, rest))
  {
    if |xs| == 0 {
      assert QuotedList(xs) + rest == rest;
    } else {
      DecodeQuotedItemsRoundTrip(xs, rest);
      if |xs| == 1 {
        assert QuotedList(xs) == Quote(xs[0]);
      } else {
        QuotedListCons(xs);
      }
      assert (QuotedList(xs) + rest)[0] == '`';
    }
  }
}
