/** The string primitives the models rely on: ActiveSupport's `blank?`,
    `String#downcase`, string interpolation of a possibly-nil attribute, and
    `String#to_i`. */
module Text {
  import opened Collections

  /** The whitespace characters `blank?` skips (ASCII space, tab, newline,
      vertical tab, form feed, carriage return). */
  predicate IsSpace(c: char)
  {
    c == ' ' || c == '\t' || c == '\n' || c == '\r' || c == '\U{000B}' || c == '\U{000C}'
  }

  /** `blank?` on a string attribute: nil, empty, or whitespace only. */
  predicate Blank(s: Option<string>)
  {
    s.None? || forall i :: 0 <= i < |s.value| ==> IsSpace(s.value[i])
  }

  /** A concatenation is blank exactly when both of its parts are. */
  lemma BlankConcat(a: string, b: string)
    ensures Blank(Some(a + b)) <==> Blank(Some(a)) && Blank(Some(b))
  {
    if Blank(Some(a + b)) {
      forall i | 0 <= i < |a| ensures IsSpace(a[i]) {
        assert (a + b)[i] == a[i];
      }
      forall i | 0 <= i < |b| ensures IsSpace(b[i]) {
        assert (a + b)[|a| + i] == b[i];
      }
    }
  }

  /** `"#{attr}"`: a nil attribute interpolates as the empty string. */
  function Interpolate(s: Option<string>): string
  {
    if s.None? then "" else s.value
  }

  /** Two attributes interpolated with a space between them give a blank
      string exactly when both are blank. */
  lemma SpacedPairBlank(first: Option<string>, second: Option<string>)
    ensures Blank(Some(Interpolate(first) + " " + Interpolate(second))) <==> Blank(first) && Blank(second)
  {
    var r := Interpolate(first) + " " + Interpolate(second);
    if !Blank(first) {
      NotBlankInside(first, "", " " + Interpolate(second));
      assert "" + Interpolate(first) + (" " + Interpolate(second)) == r;
    } else if !Blank(second) {
      NotBlankInside(second, Interpolate(first) + " ", "");
      assert Interpolate(first) + " " + Interpolate(second) + "" == r;
    } else {
      forall i | 0 <= i < |r| ensures IsSpace(r[i]) {
        if i < |Interpolate(first)| {
          assert r[i] == Interpolate(first)[i];
        } else if i > |Interpolate(first)| {
          assert r[i] == Interpolate(second)[i - |Interpolate(first)| - 1];
        }
      }
    }
  }

  /** A non-blank attribute keeps a non-space character when it is embedded
      in a longer string. */
  lemma NotBlankInside(s: Option<string>, before: string, after: string)
    requires !Blank(s)
    ensures !Blank(Some(before + Interpolate(s) + after))
  {
    var k :| 0 <= k < |s.value| && !IsSpace(s.value[k]);
    assert (before + Interpolate(s) + after)[|before| + k] == s.value[k];
  }

  /** The Latin alphabet in lower case, in order. */
  const Lowercase := "abcdefghijklmnopqrstuvwxyz"

  predicate IsUpper(c: char)
  {
    'A' <= c <= 'Z'
  }

  /** `String#downcase` as Ruby 1.9 defines it: ASCII letters only. */
  function DowncaseChar(c: char): char
  {
    if IsUpper(c) then (c as int + 32) as char else c
  }

  function Downcase(s: string): string
  {
    seq(|s|, i requires 0 <= i < |s| => DowncaseChar(s[i]))
  }

  predicate IsLowercase(s: string)
  {
    forall i :: 0 <= i < |s| ==> !IsUpper(s[i])
  }

  /** `downcase` keeps the length, leaves no upper-case letter, turns each
      capital into the lower-case letter at the same place in the alphabet,
      changes nothing else, and applying it again changes nothing. */
  lemma DowncaseProperties(s: string)
    ensures |Downcase(s)| == |s| && IsLowercase(Downcase(s))
    ensures forall i :: 0 <= i < |s| && IsUpper(s[i]) ==> Downcase(s)[i] == Lowercase[s[i] as int - 'A' as int]
    ensures forall i :: 0 <= i < |s| && !IsUpper(s[i]) ==> Downcase(s)[i] == s[i]
    ensures Downcase(Downcase(s)) == Downcase(s)
  {
    forall i | 0 <= i < |s| && IsUpper(s[i]) ensures Downcase(s)[i] == Lowercase[s[i] as int - 'A' as int] {
      LowercaseAt(s[i] as int - 'A' as int);
    }
  }

  /** `a` and `b` differ at most in the case of letters: at each position
      they hold the same character, or a capital and its lower-case letter. */
  predicate EqualIgnoringCase(a: string, b: string)
  {
    |a| == |b| &&
    forall i :: 0 <= i < |a| ==>
      a[i] == b[i] ||
      (IsUpper(a[i]) && b[i] == Lowercase[a[i] as int - 'A' as int]) ||
      (IsUpper(b[i]) && a[i] == Lowercase[b[i] as int - 'A' as int])
  }

  /** Strings that differ only in the case of letters lower-case alike. */
  lemma DowncaseIgnoresCase(a: string, b: string)
    requires EqualIgnoringCase(a, b)
    ensures Downcase(a) == Downcase(b)
  {
    DowncaseProperties(a);
    DowncaseProperties(b);
    forall i | 0 <= i < |a| ensures Downcase(a)[i] == Downcase(b)[i] {
      if IsUpper(a[i]) && b[i] != a[i] {
        LowercaseAt(a[i] as int - 'A' as int);
      } else if IsUpper(b[i]) && a[i] != b[i] {
        LowercaseAt(b[i] as int - 'A' as int);
      }
    }
  }

  /** The `k`-th lower-case letter is `'a' + k`. */
  lemma LowercaseAt(k: int)
    requires 0 <= k < 26
    ensures Lowercase[k] as int == 'a' as int + k
  {
  }

  predicate IsDigit(c: char)
  {
    '0' <= c <= '9'
  }

  function DigitValue(c: char): nat
    requires IsDigit(c)
  {
    c as int - '0' as int
  }

  function SkipSpace(s: string): string
  {
    if |s| > 0 && IsSpace(s[0]) then SkipSpace(s[1..]) else s
  }

  /** The digits of the leading number of `s`, with the single underscores
      Ruby allows between digits dropped. */
  function LeadingDigits(s: string): (ds: string)
    ensures forall i :: 0 <= i < |ds| ==> IsDigit(ds[i])
  {
    if |s| > 0 && IsDigit(s[0]) then
      if |s| > 2 && s[1] == '_' && IsDigit(s[2]) then [s[0]] + LeadingDigits(s[2..])
      else [s[0]] + LeadingDigits(s[1..])
    else ""
  }

  /** The value of a string of decimal digits. */
  function DigitsValue(ds: string): nat
    requires forall i :: 0 <= i < |ds| ==> IsDigit(ds[i])
  {
    if |ds| == 0 then 0 else DigitsValue(ds[..|ds| - 1]) * 10 + DigitValue(ds[|ds| - 1])
  }

  /** `String#to_i`: skip leading whitespace, read an optional sign and the
      longest run of digits; no digits means 0, and trailing text is ignored.
      `nil.to_i` is 0 as well. */
  function ToI(s: Option<string>): (n: int)
    ensures n < 0 ==> s.Some? && |SkipSpace(s.value)| > 0 && SkipSpace(s.value)[0] == '-'
    ensures s.Some? && |SkipSpace(s.value)| > 0 && IsDigit(SkipSpace(s.value)[0]) ==> n >= 0
  {
    if s.None? then 0
    else
      var t := SkipSpace(s.value);
      if |t| > 0 && t[0] == '-' then 0 - DigitsValue(LeadingDigits(t[1..])) as int
      else if |t| > 0 && t[0] == '+' then DigitsValue(LeadingDigits(t[1..]))
      else DigitsValue(LeadingDigits(t))
  }

  function DigitChar(d: nat): (c: char)
    requires d < 10
    ensures IsDigit(c) && DigitValue(c) == d
  {
    ('0' as int + d) as char
  }

  /** `Integer#to_s` for a natural number. */
  function ShowNat(n: nat): (s: string)
    ensures |s| > 0 && forall i :: 0 <= i < |s| ==> IsDigit(s[i])
  {
    if n < 10 then [DigitChar(n)] else ShowNat(n / 10) + [DigitChar(n % 10)]
  }

  /** `Integer#to_s`. */
  function ShowInt(n: int): string
  {
    if n < 0 then "-" + ShowNat(-n) else ShowNat(n)
  }

  lemma {:induction false} DigitsValueShowNat(n: nat)
    ensures DigitsValue(ShowNat(n)) == n
  {
    if n >= 10 {
      var s := ShowNat(n);
      assert s[..|s| - 1] == ShowNat(n / 10);
      DigitsValueShowNat(n / 10);
    }
  }

  lemma {:induction false} LeadingDigitsOfDigits(ds: string)
    requires forall i :: 0 <= i < |ds| ==> IsDigit(ds[i])
    ensures LeadingDigits(ds) == ds
  {
    if |ds| > 0 {
      assert !(|ds| > 2 && ds[1] == '_');
      LeadingDigitsOfDigits(ds[1..]);
    }
  }

  /** `to_i` reads back what `to_s` wrote, for every integer; in particular
      the form's sentinel `"-1"` reads as -1. */
  lemma ToIShowInt(n: int)
    ensures ToI(Some(ShowInt(n))) == n
  {
    var m: nat := if n < 0 then -n else n;
    var digits := ShowNat(m);
    LeadingDigitsOfDigits(digits);
    DigitsValueShowNat(m);
    if n < 0 {
      assert SkipSpace("-" + digits) == "-" + digits;
      assert ("-" + digits)[1..] == digits;
    } else {
      assert SkipSpace(digits) == digits;
    }
  }
}
