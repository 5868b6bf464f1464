/**
 * The few pieces of Python text handling the revenue descriptors go through:
 * str.strip(), str.replace(c, ''), str.split(sep) and int().
 */
module Text {
  import opened Routes

  /** Whitespace as str.strip() and int() see it, restricted to ASCII and the
      four separator controls 0x1C-0x1F. */
  predicate IsSpace(c: char)
  {
    c == ' ' || '\t' <= c <= '\r' || '\U{1C}' <= c <= '\U{1F}'
  }

  function TrimStart(s: string): (t: string)
    ensures |t| <= |s| && t == s[|s| - |t|..]
    ensures t == [] || !IsSpace(t[0])
    ensures forall k :: 0 <= k < |s| - |t| ==> IsSpace(s[k])
  {
    if s != [] && IsSpace(s[0]) then TrimStart(s[1..]) else s
  }

  function TrimEnd(s: string): (t: string)
    ensures |t| <= |s| && t == s[..|t|]
    ensures t == [] || !IsSpace(t[|t| - 1])
    ensures forall k :: |t| <= k < |s| ==> IsSpace(s[k])
  {
    if s != [] && IsSpace(s[|s| - 1]) then TrimEnd(s[..|s| - 1]) else s
  }

  /** str.strip() with no argument. */
  function Strip(s: string): (t: string)
    ensures |t| <= |s|
    ensures t == [] || (!IsSpace(t[0]) && !IsSpace(t[|t| - 1]))
    ensures forall k :: 0 <= k < |s| && !IsSpace(s[k]) ==> t != []
    ensures |t| <= |TrimStart(s)| && t == TrimStart(s)[..|t|]
    ensures forall k :: |t| <= k < |TrimStart(s)| ==> IsSpace(TrimStart(s)[k])
  {
    TrimEnd(TrimStart(s))
  }

  /** A string that starts and ends with a non-space is left as it is. */
  lemma StripClean(s: string)
    requires s == [] || (!IsSpace(s[0]) && !IsSpace(s[|s| - 1]))
    ensures Strip(s) == s
  {
  }

  /** s.replace(c, ''). */
  function RemoveAll(s: string, c: char): (t: string)
    ensures c !in t
    ensures |t| <= |s|
    ensures c !in s ==> t == s
  {
    if s == [] then []
    else (if s[0] == c then [] else [s[0]]) + RemoveAll(s[1..], c)
  }

  /** s.split(sep): the pieces between separators, at least one. */
  function Split(s: string, sep: char): (parts: seq<string>)
    ensures |parts| >= 1
    ensures forall k :: 0 <= k < |parts| ==> sep !in parts[k]
  {
    if s == [] then [[]]
    else
      var rest := Split(s[1..], sep);
      if s[0] == sep then [[]] + rest
      else [[s[0]] + rest[0]] + rest[1..]
  }

  /** Removing a character works piece by piece: every other character is
      kept, in order. */
  lemma {:induction false} RemoveAllAppend(a: string, b: string, c: char)
    ensures RemoveAll(a + b, c) == RemoveAll(a, c) + RemoveAll(b, c)
  {
    if a == [] {
      assert a + b == b;
    } else {
      assert (a + b)[0] == a[0];
      assert (a + b)[1..] == a[1..] + b;
      RemoveAllAppend(a[1..], b, c);
    }
  }

  /** sep.join(parts), the inverse of Split. */
  function Join(parts: seq<string>, sep: char): string
  {
    if parts == [] then []
    else if |parts| == 1 then parts[0]
    else parts[0] + [sep] + Join(parts[1..], sep)
  }

  /** Splitting loses nothing: joining the pieces gives the text back. */
  lemma {:induction false} JoinSplit(s: string, sep: char)
    ensures Join(Split(s, sep), sep) == s
  {
    if s != [] {
      var rest := Split(s[1..], sep);
      JoinSplit(s[1..], sep);
      if s[0] == sep {
        assert Split(s, sep) == [[]] + rest;
        assert Join([[]] + rest, sep) == [sep] + Join(rest, sep);
      } else if |rest| == 1 {
        assert Split(s, sep) == [[s[0]] + rest[0]];
      } else {
        assert Split(s, sep) == [[s[0]] + rest[0]] + rest[1..];
        assert Join(rest, sep) == rest[0] + [sep] + Join(rest[1..], sep);
      }
    }
  }

  /** Text without the separator is one piece. */
  lemma {:induction false} SplitWhole(s: string, sep: char)
    requires sep !in s
    ensures Split(s, sep) == [s]
  {
    if s != [] {
      SplitWhole(s[1..], sep);
      assert [s[0]] + s[1..] == s;
    }
  }

  /** The first separator ends the first piece. */
  lemma {:induction false} SplitAt(a: string, b: string, sep: char)
    requires sep !in a
    ensures Split(a + [sep] + b, sep) == [a] + Split(b, sep)
  {
    if a == [] {
      assert a + [sep] + b == [sep] + b;
      assert ([sep] + b)[1..] == b;
    } else {
      assert (a + [sep] + b)[1..] == a[1..] + [sep] + b;
      SplitAt(a[1..], b, sep);
      assert [a[0]] + a[1..] == a;
    }
  }

  predicate IsDigit(c: char)
  {
    '0' <= c <= '9'
  }

  predicate IsNumeral(s: string)
  {
    s != [] && forall k :: 0 <= k < |s| ==> IsDigit(s[k])
  }

  function DigitValue(c: char): nat
    requires IsDigit(c)
  {
    c as int - '0' as int
  }

  /** The value of a string of decimal digits, most significant first. */
  function NumeralValue(s: string): nat
    requires forall k :: 0 <= k < |s| ==> IsDigit(s[k])
  {
    if s == [] then 0 else 10 * NumeralValue(s[..|s| - 1]) + DigitValue(s[|s| - 1])
  }

  /** int(s) for a str: surrounding whitespace, an optional sign, then decimal
      digits; anything else is the ValueError that None stands for. */
  function ParseInt(s: string): (r: Option<int>)
    ensures r.Some? ==> Strip(s) != []
    ensures r.Some? && r.value < 0 ==> Strip(s)[0] == '-'
    ensures r.Some? ==> var t := Strip(s);
      && t != []
      && (IsDigit(t[0]) || t[0] == '+' || t[0] == '-')
      && forall k :: 0 < k < |t| ==> IsDigit(t[k])
  {
    var t := Strip(s);
    if t != [] && (t[0] == '+' || t[0] == '-') && IsNumeral(t[1..]) then
      var v: int := NumeralValue(t[1..]);
      Some(if t[0] == '-' then -v else v)
    else if IsNumeral(t) then Some(NumeralValue(t))
    else None
  }

  function Digit(d: nat): (c: char)
    requires d < 10
    ensures IsDigit(c) && DigitValue(c) == d
  {
    ('0' as int + d) as char
  }

  /** str(n) for a natural number. */
  function ShowNat(n: nat): (s: string)
    ensures IsNumeral(s)
  {
    if n < 10 then [Digit(n)] else ShowNat(n / 10) + [Digit(n % 10)]
  }

  /** str(n). */
  function Show(n: int): string
  {
    if n < 0 then "-" + ShowNat(-n) else ShowNat(n)
  }

  lemma {:induction false} NumeralValueShowNat(n: nat)
    ensures NumeralValue(ShowNat(n)) == n
  {
    if n >= 10 {
      var s := ShowNat(n);
      assert s[..|s| - 1] == ShowNat(n / 10);
      NumeralValueShowNat(n / 10);
    }
  }

  /** int(str(n)) == n. */
  lemma ParseShow(n: int)
    ensures ParseInt(Show(n)) == Some(n)
  {
    if n < 0 {
      ParseMinusShow(-n);
    } else {
      ParseNatShow(n);
    }
  }

  lemma ParseNatShow(n: nat)
    ensures ParseInt(ShowNat(n)) == Some(n)
  {
    NumeralValueShowNat(n);
    ParseNumeral(ShowNat(n));
  }

  /** int('-' + str(n)) == -n. */
  lemma ParseMinusShow(n: nat)
    ensures ParseInt("-" + ShowNat(n)) == Some(-(n as int))
  {
    NumeralValueShowNat(n);
    ParseSignedNumeral('-', ShowNat(n), n);
  }

  /** int() of bare digits is their value. */
  lemma ParseNumeral(digits: string)
    requires IsNumeral(digits)
    ensures ParseInt(digits) == Some(NumeralValue(digits))
  {
    assert IsDigit(digits[0]) && IsDigit(digits[|digits| - 1]);
    StripClean(digits);
  }

  /** int() of a sign and digits is their value with that sign. */
  lemma ParseSignedNumeral(sign: char, digits: string, v: nat)
    requires sign == '+' || sign == '-'
    requires IsNumeral(digits) && NumeralValue(digits) == v
    ensures sign == '+' ==> ParseInt([sign] + digits) == Some(v)
    ensures sign == '-' ==> ParseInt([sign] + digits) == Some(-(v as int))
  {
    var s := [sign] + digits;
    assert s[1..] == digits;
    assert s[|s| - 1] == digits[|digits| - 1];
    assert IsDigit(digits[|digits| - 1]);
    StripClean(s);
  }

  /** int('+' + str(n)) == n, the explicit plus sign of a revenue like "+4". */
  lemma ParsePlusShow(n: nat)
    ensures ParseInt("+" + ShowNat(n)) == Some(n)
  {
    NumeralValueShowNat(n);
    ParseSignedNumeral('+', ShowNat(n), n);
  }

  /** str(n) has no surrounding whitespace. */
  lemma StripShow(n: int)
    ensures Strip(Show(n)) == Show(n)
  {
    var d := ShowNat(if n < 0 then -n else n);
    assert IsDigit(d[0]) && IsDigit(d[|d| - 1]);
    var s := Show(n);
    if n < 0 {
      assert s == ['-'] + d;
      assert s[|s| - 1] == d[|d| - 1];
    }
    StripClean(s);
  }

  /** Neither str(n) nor its digits hold a plus sign or a semicolon. */
  lemma ShowHasNoSign(n: int)
    ensures '+' !in Show(n) && ';' !in Show(n)
  {
    var m := if n < 0 then -n else n;
    var s := ShowNat(m);
    assert forall k :: 0 <= k < |s| ==> s[k] != '+' && s[k] != ';' by {
      forall k | 0 <= k < |s| ensures s[k] != '+' && s[k] != ';' {
        assert IsDigit(s[k]);
      }
    }
    if n < 0 {
      assert Show(n) == ['-'] + s;
    }
  }
}
