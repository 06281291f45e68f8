/**
 * The receiving end of a chat deep link, after the WHATWG URL Standard:
 * the basic URL parser first removes leading and trailing C0 controls and
 * spaces, then drops every ASCII tab and newline (section 4.4, "basic URL
 * parser"), and the application/x-www-form-urlencoded parser
 * (section 5.1) ends a value at `&`, reads `+` as a space and
 * percent-decodes `%XX`. The fragment begins at `#`. Only escapes of ASCII
 * characters are decoded here; the text builders never produce others.
 */
module UrlQuery {

  /** The characters a query value cannot carry as themselves. */
  predicate Reserved(c: char)
  {
    c == '%' || c == '&' || c == '#' || c == '+' || c == '\t' || c == '\n' || c == '\r'
  }

  /** Text with no reserved character: it travels in a query value as it is. */
  predicate Plain(s: string)
  {
    forall i | 0 <= i < |s| :: !Reserved(s[i])
  }

  /** A C0 control or space: what the basic URL parser trims from both
      ends of its input. */
  predicate Blank(c: char)
  {
    c as int <= 0x20
  }

  /** Text with no C0 control or space anywhere. */
  predicate Blankless(s: string)
  {
    forall i | 0 <= i < |s| :: !Blank(s[i])
  }

  /** Text whose last character, if any, is not trimmed. */
  predicate EndsClean(s: string)
  {
    s == [] || !Blank(s[|s| - 1])
  }

  /** The characters the basic URL parser drops. */
  predicate TabOrNewline(c: char)
  {
    c == '\t' || c == '\n' || c == '\r'
  }

  /** The characters that end a query value. */
  predicate EndsValue(c: char)
  {
    c == '&' || c == '#'
  }

  /** Text that neither the URL parser nor the value splitter alters or
      cuts: no tab, newline, `&` or `#`. */
  predicate Unbroken(s: string)
  {
    forall i | 0 <= i < |s| :: !TabOrNewline(s[i]) && !EndsValue(s[i])
  }

  predicate IsHexDigit(c: char)
  {
    '0' <= c <= '9' || 'A' <= c <= 'F' || 'a' <= c <= 'f'
  }

  function HexValue(c: char): (v: nat)
    requires IsHexDigit(c)
    ensures v < 16
  {
    if '0' <= c <= '9' then c as int - '0' as int
    else if 'A' <= c <= 'F' then c as int - 'A' as int + 10
    else c as int - 'a' as int + 10
  }

  /** The upper-case hexadecimal digit of `d`. */
  function HexDigit(d: nat): (c: char)
    requires d < 16
    ensures IsHexDigit(c) && HexValue(c) == d
  {
    if d < 10 then ('0' as int + d) as char else ('A' as int + d - 10) as char
  }

  /** Which characters an encoder writes as `%XX`: only the reserved ones,
      or also every C0 control and space, as `encodeURIComponent` does. */
  datatype EscapeSet = ReservedOnly | ReservedAndBlank

  predicate MustEscape(c: char, es: EscapeSet)
  {
    Reserved(c) || (es == ReservedAndBlank && Blank(c))
  }

  /** `c` as a query value carries it: the escaped characters as `%XX`. */
  function EscapeChar(c: char, es: EscapeSet): string
  {
    if MustEscape(c, es) then ['%', HexDigit(c as int / 16), HexDigit(c as int % 16)] else [c]
  }

  /** `s` percent-encoded for a query value. */
  function Escape(s: string, es: EscapeSet): (r: string)
    ensures Unbroken(r)
    ensures es == ReservedAndBlank ==> Blankless(r)
  {
    if s == [] then [] else EscapeChar(s[0], es) + Escape(s[1..], es)
  }

  /** Whether `s` starts with a `%XX` escape of an ASCII character. */
  predicate StartsWithEscape(s: string)
  {
    |s| >= 3 && s[0] == '%' && '0' <= s[1] <= '7' && IsHexDigit(s[2])
  }

  /** The form-urlencoded decoding of a value. */
  function Unescape(s: string): (r: string)
    ensures |r| <= |s|
    decreases |s|
  {
    if s == [] then []
    else if StartsWithEscape(s) then
      [(16 * (s[1] as int - '0' as int) + HexValue(s[2])) as char] + Unescape(s[3..])
    else if s[0] == '+' then [' '] + Unescape(s[1..])
    else [s[0]] + Unescape(s[1..])
  }

  /** The basic URL parser's first step: drop ASCII tab and newline. */
  function StripTabsAndNewlines(s: string): (r: string)
    ensures |r| <= |s|
  {
    if s == [] then []
    else if TabOrNewline(s[0]) then StripTabsAndNewlines(s[1..])
    else [s[0]] + StripTabsAndNewlines(s[1..])
  }

  /** Leading C0 controls and spaces removed. */
  function TrimStart(s: string): (r: string)
    ensures |r| <= |s| && r == s[|s| - |r|..]
    ensures r == [] || !Blank(r[0])
  {
    if s != [] && Blank(s[0]) then TrimStart(s[1..]) else s
  }

  /** Trailing C0 controls and spaces removed. */
  function TrimEnd(s: string): (r: string)
    ensures |r| <= |s| && r == s[..|r|]
    ensures EndsClean(r)
  {
    if s != [] && Blank(s[|s| - 1]) then TrimEnd(s[..|s| - 1]) else s
  }

  /** The value at the front of `s`: up to the next `&` or the start of the
      fragment. */
  function ValuePart(s: string): (r: string)
    ensures |r| <= |s| && r == s[..|r|]
  {
    if s == [] || EndsValue(s[0]) then [] else [s[0]] + ValuePart(s[1..])
  }

  lemma {:induction false} EscapeAppend(a: string, b: string, es: EscapeSet)
    ensures Escape(a + b, es) == Escape(a, es) + Escape(b, es)
  {
    if a != [] {
      assert (a + b)[1..] == a[1..] + b;
      EscapeAppend(a[1..], b, es);
    } else {
      assert a + b == b;
    }
  }

  /** Text without reserved characters is its own encoding. */
  lemma {:induction false} EscapePlain(s: string)
    requires Plain(s)
    ensures Escape(s, ReservedOnly) == s
  {
    if s != [] {
      EscapePlain(s[1..]);
    }
  }

  lemma UnescapeEscapedChar(c: char, es: EscapeSet, rest: string)
    ensures Unescape(EscapeChar(c, es) + rest) == [c] + Unescape(rest)
  {
    var e := EscapeChar(c, es) + rest;
    if MustEscape(c, es) {
      assert StartsWithEscape(e);
      assert e[3..] == rest;
    } else {
      assert !StartsWithEscape(e) && e[1..] == rest;
    }
  }

  /** Decoding undoes encoding, for every text. */
  lemma {:induction false} UnescapeEscape(s: string, es: EscapeSet)
    ensures Unescape(Escape(s, es)) == s
  {
    if s != [] {
      UnescapeEscapedChar(s[0], es, Escape(s[1..], es));
      UnescapeEscape(s[1..], es);
    }
  }

  /** Plain text is unbroken. */
  lemma PlainIsUnbroken(s: string)
    requires Plain(s)
    ensures Unbroken(s)
  {
    forall i | 0 <= i < |s|
      ensures !TabOrNewline(s[i]) && !EndsValue(s[i])
    {
      assert !Reserved(s[i]);
    }
  }

  lemma UnbrokenAppend(a: string, b: string)
    requires Unbroken(a) && Unbroken(b)
    ensures Unbroken(a + b)
  {
    forall i | 0 <= i < |a + b|
      ensures !TabOrNewline((a + b)[i]) && !EndsValue((a + b)[i])
    {
      if i < |a| {
        assert (a + b)[i] == a[i];
      } else {
        assert (a + b)[i] == b[i - |a|];
      }
    }
  }

  lemma {:induction false} StripUnbroken(s: string)
    requires Unbroken(s)
    ensures StripTabsAndNewlines(s) == s
  {
    if s != [] {
      StripUnbroken(s[1..]);
    }
  }

  lemma {:induction false} ValuePartUnbroken(s: string)
    requires Unbroken(s)
    ensures ValuePart(s) == s
  {
    if s != [] {
      ValuePartUnbroken(s[1..]);
    }
  }

  lemma {:induction false} StripAppend(a: string, b: string)
    ensures StripTabsAndNewlines(a + b) == StripTabsAndNewlines(a) + StripTabsAndNewlines(b)
  {
    if a != [] {
      assert (a + b)[1..] == a[1..] + b;
      StripAppend(a[1..], b);
    } else {
      assert a + b == b;
    }
  }

  /** A value is cut at the first `&` that follows text without one. */
  lemma {:induction false} ValuePartCutsAtAmpersand(a: string, b: string)
    requires Unbroken(a)
    ensures ValuePart(a + "&" + b) == a
  {
    if a != [] {
      assert (a + "&" + b)[1..] == a[1..] + "&" + b;
      ValuePartCutsAtAmpersand(a[1..], b);
    }
  }

  /** Once a value has been cut at an `&`, what follows does not matter. */
  lemma {:induction false} ValuePartStopsAtAmpersand(a: string, b: string)
    requires '&' in a
    ensures ValuePart(a + b) == ValuePart(a)
  {
    assert a[0] == (a + b)[0];
    if !EndsValue(a[0]) {
      assert (a + b)[1..] == a[1..] + b;
      assert '&' in a[1..] by {
        var i :| 0 <= i < |a| && a[i] == '&';
        assert a[1..][i - 1] == '&';
      }
      ValuePartStopsAtAmpersand(a[1..], b);
    }
  }

  /** Dropping tabs and newlines keeps every `&`. */
  lemma {:induction false} StripKeepsAmpersand(a: string)
    requires '&' in a
    ensures '&' in StripTabsAndNewlines(a)
  {
    if a[0] != '&' {
      assert '&' in a[1..] by {
        var i :| 0 <= i < |a| && a[i] == '&';
        assert a[1..][i - 1] == '&';
      }
      StripKeepsAmpersand(a[1..]);
    }
  }

  /** The value read from `x + y` is the one read from `x` once `x` holds an
      `&`. */
  lemma ValueReadStopsInPrefix(x: string, y: string)
    requires '&' in x
    ensures '&' in x + y
    ensures ValuePart(StripTabsAndNewlines(x + y)) == ValuePart(StripTabsAndNewlines(x))
  {
    var i :| 0 <= i < |x| && x[i] == '&';
    assert (x + y)[i] == '&';
    StripAppend(x, y);
    StripKeepsAmpersand(x);
    ValuePartStopsAtAmpersand(StripTabsAndNewlines(x), StripTabsAndNewlines(y));
  }

  /** Trimming the end of `a + b` leaves `a` alone when `a` ends in a
      character that is not trimmed. */
  lemma {:induction false} TrimEndAppend(a: string, b: string)
    requires a != [] && EndsClean(a)
    ensures TrimEnd(a + b) == a + TrimEnd(b)
    decreases |b|
  {
    if b == [] {
      assert a + b == a;
    } else if Blank(b[|b| - 1]) {
      assert (a + b)[..|a + b| - 1] == a + b[..|b| - 1];
      TrimEndAppend(a, b[..|b| - 1]);
    }
  }

  /** Trimming only removes blanks: a text that ends clean is kept, and one
      that does not loses its last character. */
  lemma TrimEndShortens(s: string)
    ensures EndsClean(s) ==> TrimEnd(s) == s
    ensures !EndsClean(s) ==> |TrimEnd(s)| < |s|
  {
  }

  /** A prefix of plain text is plain. */
  lemma PlainPrefix(s: string, n: nat)
    requires Plain(s) && n <= |s|
    ensures Plain(s[..n])
  {
    forall i | 0 <= i < n
      ensures !Reserved(s[..n][i])
    {
      assert s[..n][i] == s[i];
    }
  }
}
