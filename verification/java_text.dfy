/** The `java.lang.String` and `Integer` operations the driver core relies on,
    with the JDK's semantics. Case folding is ASCII-only and digits are ASCII
    digits: every string the driver folds or parses is compared against ASCII
    constants. */
module JavaText {
  import opened Wrappers

  // ---------------------------------------------------------------------------
  // trim

  /** `String.trim` removes every character whose code is at most U+0020. */
  predicate IsBlank(c: char) {
    c <= ' '
  }

  predicate AllBlank(s: string) {
    forall k :: 0 <= k < |s| ==> IsBlank(s[k])
  }

  /** Neither end of `s` is blank: `s` is what `trim` leaves unchanged. */
  predicate HasSolidEnds(s: string) {
    |s| == 0 || (!IsBlank(s[0]) && !IsBlank(s[|s| - 1]))
  }

  function TrimStart(s: string): (r: string)
    ensures |r| <= |s| && r == s[|s| - |r|..]
    ensures AllBlank(s[..|s| - |r|])
    ensures |r| > 0 ==> !IsBlank(r[0])
  {
    if |s| > 0 && IsBlank(s[0]) then TrimStart(s[1..]) else s
  }

  function TrimEnd(s: string): (r: string)
    ensures |r| <= |s| && r == s[..|r|]
    ensures AllBlank(s[|r|..])
    ensures |r| > 0 ==> !IsBlank(r[|r| - 1])
  {
    if |s| > 0 && IsBlank(s[|s| - 1]) then TrimEnd(s[..|s| - 1]) else s
  }

  /** `String.trim`. */
  function Trim(s: string): (r: string)
    ensures HasSolidEnds(r)
  {
    TrimEnd(TrimStart(s))
  }

  lemma {:induction false} TrimStartOfPadded(pre: string, t: string)
    requires AllBlank(pre)
    requires |t| == 0 || !IsBlank(t[0])
    ensures TrimStart(pre + t) == t
  {
    if |pre| > 0 {
      assert (pre + t)[0] == pre[0];
      assert (pre + t)[1..] == pre[1..] + t;
      TrimStartOfPadded(pre[1..], t);
    } else {
      assert pre + t == t;
    }
  }

  lemma {:induction false} TrimEndOfPadded(t: string, post: string)
    requires AllBlank(post)
    requires |t| == 0 || !IsBlank(t[|t| - 1])
    ensures TrimEnd(t + post) == t
  {
    if |post| > 0 {
      var s := t + post;
      assert s[|s| - 1] == post[|post| - 1];
      assert s[..|s| - 1] == t + post[..|post| - 1];
      TrimEndOfPadded(t, post[..|post| - 1]);
    } else {
      assert t + post == t;
    }
  }

  /** Trimming removes exactly the blank padding around a string with solid ends:
      inner characters, blanks included, are kept. */
  lemma TrimOfPadded(pre: string, body: string, post: string)
    requires AllBlank(pre) && AllBlank(post)
    requires HasSolidEnds(body)
    ensures Trim(pre + body + post) == body
  {
    if |body| == 0 {
      assert pre + body + post == pre + post;
      TrimStartOfPadded(pre + post, "");
      assert pre + post + "" == pre + post;
    } else {
      assert pre + body + post == pre + (body + post);
      TrimStartOfPadded(pre, body + post);
      TrimEndOfPadded(body, post);
    }
  }

  lemma TrimOfSolid(s: string)
    requires HasSolidEnds(s)
    ensures Trim(s) == s
  {
    TrimOfPadded("", s, "");
    assert "" + s + "" == s;
  }

  // ---------------------------------------------------------------------------
  // searching

  /** Index of the first character of `s` that is in `d`, or -1 if there is none. */
  function IndexOfAny(s: string, d: set<char>): (r: int)
    ensures -1 <= r < |s|
    ensures r >= 0 ==> s[r] in d
    ensures forall k :: 0 <= k < |s| && (r < 0 || k < r) ==> s[k] !in d
  {
    if |s| == 0 then -1
    else if s[0] in d then 0
    else
      var i := IndexOfAny(s[1..], d);
      if i < 0 then -1 else i + 1
  }

  /** `String.indexOf(c)`. */
  function IndexOf(s: string, c: char): (r: int)
    ensures -1 <= r < |s|
    ensures r >= 0 ==> s[r] == c
    ensures r < 0 <==> c !in s
    ensures forall k :: 0 <= k < r ==> s[k] != c
  {
    IndexOfAny(s, {c})
  }

  /** `String.lastIndexOf(c)`. */
  function LastIndexOf(s: string, c: char): (r: int)
    ensures -1 <= r < |s|
    ensures r >= 0 ==> s[r] == c
    ensures r < 0 <==> c !in s
    ensures forall k :: r < k < |s| ==> s[k] != c
  {
    if |s| == 0 then -1
    else if s[|s| - 1] == c then |s| - 1
    else LastIndexOf(s[..|s| - 1], c)
  }

  lemma NotInSlice(s: string, c: char, i: int, j: int)
    requires 0 <= i <= j <= |s|
    requires forall k :: i <= k < j ==> s[k] != c
    ensures c !in s[i..j]
  {
    assert forall k :: 0 <= k < j - i ==> s[i..j][k] == s[i + k];
  }

  /** When `c` occurs first right after `a`, `indexOf` finds that position. */
  lemma IndexOfAfter(a: string, c: char, b: string)
    requires c !in a
    ensures IndexOf(a + [c] + b, c) == |a|
  {
    var s := a + [c] + b;
    var r := IndexOf(s, c);
    assert s[|a|] == c;
    assert forall k :: 0 <= k < |a| ==> s[k] == a[k];
  }

  /** When `c` occurs last right after `a`, `lastIndexOf` finds that position. */
  lemma {:induction false} LastIndexOfBefore(a: string, c: char, b: string)
    requires c !in b
    ensures LastIndexOf(a + [c] + b, c) == |a|
  {
    var s := a + [c] + b;
    if |b| == 0 {
      assert s == a + [c];
    } else {
      assert s[|s| - 1] == b[|b| - 1];
      assert s[..|s| - 1] == a + [c] + b[..|b| - 1];
      LastIndexOfBefore(a, c, b[..|b| - 1]);
    }
  }

  // ---------------------------------------------------------------------------
  // ASCII case folding

  function ToLowerChar(c: char): char {
    if 'A' <= c <= 'Z' then (c as int + 32) as char else c
  }

  function ToUpperChar(c: char): char {
    if 'a' <= c <= 'z' then (c as int - 32) as char else c
  }

  /** `String.toLowerCase(Locale.ENGLISH)`, restricted to ASCII letters. */
  function ToLower(s: string): (r: string)
    ensures |r| == |s|
    ensures forall k :: 0 <= k < |s| ==> r[k] == ToLowerChar(s[k])
    ensures EqualsIgnoreCase(r, s)
    ensures forall k :: 0 <= k < |r| ==> !('A' <= r[k] <= 'Z')
  {
    seq(|s|, k requires 0 <= k < |s| => ToLowerChar(s[k]))
  }

  /** `String.toUpperCase(Locale.ENGLISH)`, restricted to ASCII letters. */
  function ToUpper(s: string): (r: string)
    ensures |r| == |s|
    ensures forall k :: 0 <= k < |s| ==> r[k] == ToUpperChar(s[k])
    ensures EqualsIgnoreCase(r, s)
    ensures forall k :: 0 <= k < |r| ==> !('a' <= r[k] <= 'z')
  {
    seq(|s|, k requires 0 <= k < |s| => ToUpperChar(s[k]))
  }

  /** Equality up to ASCII case, as a case-insensitive pattern matches literal text. */
  predicate EqualsIgnoreCase(a: string, b: string) {
    |a| == |b| && forall k :: 0 <= k < |a| ==> ToLowerChar(a[k]) == ToLowerChar(b[k])
  }

  /** Lower-casing twice changes nothing more than lower-casing once. */
  lemma ToLowerIdempotent(s: string)
    ensures ToLower(ToLower(s)) == ToLower(s)
  {
  }

  /** A string equals a lower-case constant after lower-casing exactly when it
      equals that constant up to case. */
  lemma ToLowerEqualsIff(s: string, lower: string)
    requires ToLower(lower) == lower
    ensures ToLower(s) == lower <==> EqualsIgnoreCase(s, lower)
  {
    if EqualsIgnoreCase(s, lower) {
      assert forall k :: 0 <= k < |s| ==> ToLower(s)[k] == lower[k] by {
        forall k | 0 <= k < |s| ensures ToLower(s)[k] == lower[k] {
          assert ToLowerChar(lower[k]) == ToLower(lower)[k] == lower[k];
        }
      }
    }
  }

  // ---------------------------------------------------------------------------
  // split

  /** All the pieces between delimiters, empty pieces included. */
  function Fields(s: string, d: set<char>): (r: seq<string>)
    ensures |r| >= 1
    ensures forall i, k :: 0 <= i < |r| && 0 <= k < |r[i]| ==> r[i][k] !in d
    decreases |s|
  {
    var i := IndexOfAny(s, d);
    if i < 0 then [s] else [s[..i]] + Fields(s[i + 1..], d)
  }

  /** `String.join` with a one-character separator. */
  function Join(parts: seq<string>, c: char): string {
    if |parts| == 0 then ""
    else if |parts| == 1 then parts[0]
    else parts[0] + [c] + Join(parts[1..], c)
  }

  /** Drops the empty strings at the end of `parts`. */
  function DropTrailingEmpty(parts: seq<string>): (r: seq<string>)
    ensures r <= parts
    ensures |r| > 0 ==> r[|r| - 1] != ""
    ensures forall k :: |r| <= k < |parts| ==> parts[k] == ""
  {
    if |parts| > 0 && parts[|parts| - 1] == "" then DropTrailingEmpty(parts[..|parts| - 1])
    else parts
  }

  /** `String.split` for a pattern that matches one character of `d`: without any
      delimiter the result is the string itself (so "" gives [""]); otherwise the
      fields with the trailing empty ones removed (so "," gives []). */
  function Split(s: string, d: set<char>): (r: seq<string>)
    ensures forall i, k :: 0 <= i < |r| && 0 <= k < |r[i]| ==> r[i][k] !in d
    ensures r == [s] <==> IndexOfAny(s, d) < 0
    ensures r != [s] && |r| > 0 ==> r[|r| - 1] != ""
    ensures r <= Fields(s, d)
    ensures forall k :: |r| <= k < |Fields(s, d)| ==> Fields(s, d)[k] == ""
  {
    if IndexOfAny(s, d) < 0 then [s]
    else
      DelimitedSplit(s, d);
      DropTrailingEmpty(Fields(s, d))
  }

  /** With a delimiter present, the kept fields are delimiter-free, end in a
      non-empty field, and are not the whole text. */
  lemma DelimitedSplit(s: string, d: set<char>)
    requires IndexOfAny(s, d) >= 0
    ensures var r := DropTrailingEmpty(Fields(s, d));
      && r != [s]
      && (forall i, k :: 0 <= i < |r| && 0 <= k < |r[i]| ==> r[i][k] !in d)
  {
    var f := Fields(s, d);
    var r := DropTrailingEmpty(f);
    var i := IndexOfAny(s, d);
    assert forall j :: 0 <= j < |r| ==> r[j] == f[j];
    assert |f[0]| == i < |s|;
  }

  predicate NoneContains(parts: seq<string>, c: char) {
    forall i :: 0 <= i < |parts| ==> c !in parts[i]
  }

  /** A character in no part, other than the separator, is not in the joined string. */
  lemma {:induction false} NotInJoin(parts: seq<string>, c: char, x: char)
    requires NoneContains(parts, x) && x != c
    ensures x !in Join(parts, c)
  {
    if |parts| > 1 {
      NotInJoin(parts[1..], c, x);
      assert x !in parts[0];
    }
  }

  /** Joining a head in front of a non-empty list puts one separator between. */
  lemma JoinCons(head: string, rest: seq<string>, c: char)
    requires |rest| >= 1
    ensures Join([head] + rest, c) == head + [c] + Join(rest, c)
  {
    assert ([head] + rest)[1..] == rest;
  }

  /** At a delimiter, the fields are the text before it followed by the
      fields of the text after it. */
  lemma FieldsStep(s: string, d: set<char>)
    requires IndexOfAny(s, d) >= 0
    ensures var i := IndexOfAny(s, d);
      Fields(s, d) == [s[..i]] + Fields(s[i + 1..], d)
  {
  }

  /** Putting back the text before a separator at `i` in front of a list that
      joins to the text after it gives the whole text. */
  lemma JoinAtSeparator(s: string, c: char, i: int, rest: seq<string>)
    requires 0 <= i < |s| && s[i] == c
    requires |rest| >= 1 && Join(rest, c) == s[i + 1..]
    ensures Join([s[..i]] + rest, c) == s
  {
    JoinCons(s[..i], rest, c);
    assert s == s[..i] + [c] + s[i + 1..];
  }

  /** Joining the fields of `s` back with the separator gives `s`. */
  lemma {:induction false} JoinOfFields(s: string, c: char)
    ensures Join(Fields(s, {c}), c) == s
    decreases |s|
  {
    var i := IndexOfAny(s, {c});
    if i >= 0 {
      JoinOfFields(s[i + 1..], c);
      FieldsStep(s, {c});
      JoinAtSeparator(s, c, i, Fields(s[i + 1..], {c}));
    }
  }

  /** The fields of a joined list are the list, when no part holds the separator. */
  lemma {:induction false} FieldsOfJoin(parts: seq<string>, c: char)
    requires |parts| >= 1
    requires NoneContains(parts, c)
    ensures Fields(Join(parts, c), {c}) == parts
  {
    if |parts| == 1 {
      assert c !in parts[0];
    } else {
      var tail := parts[1..];
      assert Join(parts, c) == parts[0] + [c] + Join(tail, c);
      assert NoneContains(tail, c) by {
        assert forall i :: 0 <= i < |tail| ==> tail[i] == parts[i + 1];
      }
      FieldsOfJoin(tail, c);
      FieldsAtSeparator(parts[0], c, Join(tail, c));
      assert parts == [parts[0]] + tail;
    }
  }

  /** A text without the separator, the separator and more text: the first
      field is the text before the separator. */
  lemma FieldsAtSeparator(head: string, c: char, tail: string)
    requires c !in head
    ensures Fields(head + [c] + tail, {c}) == [head] + Fields(tail, {c})
  {
    var s := head + [c] + tail;
    IndexOfAfter(head, c, tail);
    FieldsStep(s, {c});
    assert s[..|head|] == head;
    assert s[|head| + 1..] == tail;
  }

  /** Splitting a joined list gives the list back, provided no part holds the
      separator and, when there is more than one part, the last is not empty
      (`String.split` drops trailing empty strings). */
  lemma SplitOfJoin(parts: seq<string>, c: char)
    requires |parts| >= 1
    requires NoneContains(parts, c)
    requires |parts| == 1 || parts[|parts| - 1] != ""
    ensures Split(Join(parts, c), {c}) == parts
  {
    FieldsOfJoin(parts, c);
    var s := Join(parts, c);
    if |parts| == 1 {
      assert c !in s;
    } else {
      assert DropTrailingEmpty(parts) == parts;
    }
  }

  /** Putting back the empty fields `split` dropped and joining with the
      separator rebuilds the text. */
  lemma SplitRebuilds(s: string, c: char)
    ensures var r := Split(s, {c});
      Join(r + Fields(s, {c})[|r|..], c) == s
  {
    var r := Split(s, {c});
    var f := Fields(s, {c});
    assert r + f[|r|..] == f;
    JoinOfFields(s, c);
  }

  lemma SplitOfEmpty(c: char)
    ensures Split("", {c}) == [""]
  {
  }

  lemma SplitOfSeparatorAlone(c: char)
    ensures Split([c], {c}) == []
  {
    assert Fields([c], {c}) == ["", ""] by {
      assert IndexOfAny([c], {c}) == 0;
      assert [c][1..] == "";
    }
  }

  // ---------------------------------------------------------------------------
  // Integer.parseInt

  const IntMin: int := -0x8000_0000
  const IntMax: int := 0x7FFF_FFFF

  predicate IsDigit(c: char) {
    '0' <= c <= '9'
  }

  predicate AllDigits(s: string) {
    forall k :: 0 <= k < |s| ==> IsDigit(s[k])
  }

  /** The number a string of decimal digits denotes. */
  function DigitsValue(s: string): nat
    requires AllDigits(s)
  {
    if |s| == 0 then 0
    else 10 * DigitsValue(s[..|s| - 1]) + (s[|s| - 1] as int - '0' as int)
  }

  /** `Integer.parseInt(s)`: an optional sign, at least one digit and a value in
      the range of `int`; `None` where Java throws `NumberFormatException`. */
  function ParseInt(s: string): (r: Option<int>)
    ensures r.Some? ==> IntMin <= r.value <= IntMax
  {
    if |s| == 0 then None
    else
      var digits := if s[0] == '-' || s[0] == '+' then s[1..] else s;
      if |digits| == 0 || !AllDigits(digits) then None
      else
        var v: int := if s[0] == '-' then -(DigitsValue(digits) as int) else DigitsValue(digits);
        if IntMin <= v <= IntMax then Some(v) else None
  }

  /** The decimal digits of `n`, most significant first and without leading zeros. */
  function DecimalString(n: nat): (r: string)
    ensures |r| >= 1 && AllDigits(r)
    ensures r[0] != '-' && r[0] != '+'
  {
    var last := [('0' as int + n % 10) as char];
    if n < 10 then last else DecimalString(n / 10) + last
  }

  lemma {:induction false} DigitsValueOfDecimal(n: nat)
    ensures DigitsValue(DecimalString(n)) == n
  {
    var s := DecimalString(n);
    if n >= 10 {
      DigitsValueOfDecimal(n / 10);
      assert s[..|s| - 1] == DecimalString(n / 10);
    }
  }

  /** `parseInt` reads back every `int` written in decimal. */
  lemma ParseIntOfDecimal(n: int)
    requires IntMin <= n <= IntMax
    ensures n >= 0 ==> ParseInt(DecimalString(n)) == Some(n)
    ensures n < 0 ==> ParseInt("-" + DecimalString(-n)) == Some(n)
  {
    if n >= 0 {
      DigitsValueOfDecimal(n);
    } else {
      DigitsValueOfDecimal(-n);
      assert ("-" + DecimalString(-n))[1..] == DecimalString(-n);
    }
  }

  predicate IsSign(sign: string) {
    sign == "" || sign == "+" || sign == "-"
  }

  /** The number an optional sign followed by decimal digits denotes. */
  function SignedValue(sign: string, digits: string): int
    requires AllDigits(digits)
  {
    if sign == "-" then -(DigitsValue(digits) as int) else DigitsValue(digits)
  }

  /** An optional sign and at least one digit parse exactly when the value
      fits in an `int`, and then to that value: `"+7"` and `"007"` give 7,
      `"-0"` gives 0, leading zeros and `+` are accepted. */
  lemma ParseIntOfSigned(sign: string, digits: string)
    requires IsSign(sign) && |digits| >= 1 && AllDigits(digits)
    ensures var v := SignedValue(sign, digits);
      ParseInt(sign + digits) == if IntMin <= v <= IntMax then Some(v) else None
  {
    var s := sign + digits;
    if sign == "" {
      assert s == digits;
    } else {
      assert s[0] == sign[0];
      assert s[1..] == digits;
    }
  }

  /** Nothing else parses: a parsed text is an optional sign followed by at
      least one digit, and its value is what they denote. So the empty text,
      a sign alone and any text holding another character are rejected. */
  lemma ParseIntOnlySigned(s: string)
    requires ParseInt(s).Some?
    ensures var k := if s[0] == '-' || s[0] == '+' then 1 else 0;
      && IsSign(s[..k]) && |s[k..]| >= 1 && AllDigits(s[k..])
      && ParseInt(s) == Some(SignedValue(s[..k], s[k..]))
  {
  }

  /** Signed and zero-padded digits parse to their value. */
  lemma ParseIntAccepts()
    ensures ParseInt("+7") == Some(7) && ParseInt("007") == Some(7) && ParseInt("-0") == Some(0)
  {
    ParseIntOfSigned("+", "7");
    assert "+" + "7" == "+7";
    ParseIntOfSigned("", "007");
    assert "" + "007" == "007";
    assert "007"[..2] == "00" && "00"[..1] == "0";
    assert DigitsValue("007") == 7;
    ParseIntOfSigned("-", "0");
    assert "-" + "0" == "-0";
  }

  /** The empty text, a sign alone and letters are rejected. */
  lemma ParseIntRejects()
    ensures ParseInt("") == None && ParseInt("+") == None && ParseInt("abc") == None
  {
  }
}
