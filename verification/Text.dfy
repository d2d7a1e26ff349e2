// String helpers the Rust standard library supplies to the modelled code, and what they mean.
module Text {
  /** The characters `str::trim` removes: Unicode White_Space. */
  predicate IsWhitespace(c: char) {
    var u := c as int;
    || 0x09 <= u <= 0x0D || u == 0x20 || u == 0x85 || u == 0xA0 || u == 0x1680
    || 0x2000 <= u <= 0x200A || u == 0x2028 || u == 0x2029 || u == 0x202F || u == 0x205F || u == 0x3000
  }

  function TrimStart(s: string): string {
    if s != "" && IsWhitespace(s[0]) then TrimStart(s[1..]) else s
  }

  function TrimEnd(s: string): string {
    if s != "" && IsWhitespace(s[|s| - 1]) then TrimEnd(s[..|s| - 1]) else s
  }

  function Trim(s: string): string {
    TrimEnd(TrimStart(s))
  }

  predicate Trimmed(s: string) {
    s == "" || (!IsWhitespace(s[0]) && !IsWhitespace(s[|s| - 1]))
  }

  lemma {:induction false} TrimEndIsTrimmed(s: string)
    requires s == "" || !IsWhitespace(s[0])
    ensures Trimmed(TrimEnd(s))
  {
    if s != "" && IsWhitespace(s[|s| - 1]) {
      TrimEndIsTrimmed(s[..|s| - 1]);
    }
  }

  lemma {:induction false} TrimStartStart(s: string)
    ensures TrimStart(s) == "" || !IsWhitespace(TrimStart(s)[0])
  {
    if s != "" && IsWhitespace(s[0]) {
      TrimStartStart(s[1..]);
    }
  }

  /** Trimming changes nothing exactly on text with no whitespace at either end. */
  lemma TrimFixpoint(s: string)
    ensures Trim(s) == s <==> Trimmed(s)
  {
    TrimStartStart(s);
    TrimEndIsTrimmed(TrimStart(s));
  }

  predicate Blank(s: string) {
    forall c :: c in s ==> IsWhitespace(c)
  }

  lemma {:induction false} TrimStartCutsBlank(s: string) returns (a: string)
    ensures Blank(a) && s == a + TrimStart(s)
  {
    if s != "" && IsWhitespace(s[0]) {
      var rest := TrimStartCutsBlank(s[1..]);
      a := [s[0]] + rest;
      assert s == [s[0]] + s[1..] == [s[0]] + (rest + TrimStart(s)) == a + TrimStart(s);
    } else {
      a := "";
    }
  }

  lemma {:induction false} TrimEndCutsBlank(s: string) returns (b: string)
    ensures Blank(b) && s == TrimEnd(s) + b
  {
    if s != "" && IsWhitespace(s[|s| - 1]) {
      b := TrimEndCutsBlank(s[..|s| - 1]);
      b := b + [s[|s| - 1]];
    } else {
      b := "";
    }
  }

  lemma TrimTwice(s: string)
    ensures Trim(Trim(s)) == Trim(s)
  {
    TrimStartStart(s);
    TrimEndIsTrimmed(TrimStart(s));
    TrimFixpoint(Trim(s));
  }

  /** Trimming cuts white space at both ends, all of it and nothing else. */
  lemma TrimCutsBlankEnds(s: string) returns (a: string, b: string)
    ensures Blank(a) && Blank(b) && s == a + Trim(s) + b && Trimmed(Trim(s))
  {
    a := TrimStartCutsBlank(s);
    b := TrimEndCutsBlank(TrimStart(s));
    TrimStartStart(s);
    TrimEndIsTrimmed(TrimStart(s));
  }

  /** `split` at a character. */
  function Split(s: string, at: char): (parts: seq<string>)
    ensures |parts| >= 1
  {
    if s == "" then [""]
    else
      var rest := Split(s[1..], at);
      if s[0] == at then [""] + rest else [[s[0]] + rest[0]] + rest[1..]
  }

  function JoinWith(parts: seq<string>, at: char): string {
    if parts == [] then ""
    else if |parts| == 1 then parts[0]
    else parts[0] + ([at] + JoinWith(parts[1..], at))
  }

  lemma {:induction false} SplitNone(a: string, at: char)
    requires at !in a
    ensures Split(a, at) == [a]
  {
    if a != "" {
      SplitNone(a[1..], at);
      assert a == [a[0]] + a[1..];
    }
  }

  lemma {:induction false} SplitFirst(a: string, b: string, at: char)
    requires at !in a
    ensures Split(a + ([at] + b), at) == [a] + Split(b, at)
  {
    var s := a + ([at] + b);
    if a == "" {
      assert s[1..] == b;
    } else {
      assert s[1..] == a[1..] + ([at] + b);
      SplitFirst(a[1..], b, at);
      assert a == [a[0]] + a[1..];
    }
  }

  /** Parts without the separator are got back from the joined text. */
  lemma {:induction false} SplitUndoesJoin(parts: seq<string>, at: char)
    requires parts != [] && forall p :: p in parts ==> at !in p
    ensures Split(JoinWith(parts, at), at) == parts
    decreases |parts|
  {
    if |parts| == 1 {
      SplitNone(parts[0], at);
    } else {
      SplitFirst(parts[0], JoinWith(parts[1..], at), at);
      SplitUndoesJoin(parts[1..], at);
    }
  }

  /** Every text is its parts joined, and no part has the separator. */
  lemma {:induction false} JoinUndoesSplit(s: string, at: char)
    ensures JoinWith(Split(s, at), at) == s
    ensures forall p :: p in Split(s, at) ==> at !in p
  {
    if s != "" {
      JoinUndoesSplit(s[1..], at);
      var rest := Split(s[1..], at);
      assert s == [s[0]] + s[1..];
      if s[0] == at {
        assert ([""] + rest)[1..] == rest;
      } else {
        var parts := [[s[0]] + rest[0]] + rest[1..];
        assert parts[1..] == rest[1..];
        if |rest| > 1 {
          assert [s[0]] + (rest[0] + ([at] + JoinWith(rest[1..], at))) == parts[0] + ([at] + JoinWith(parts[1..], at));
        }
      }
    }
  }

  // Decimal numbers

  predicate AllDigits(s: string) {
    forall i :: 0 <= i < |s| ==> '0' <= s[i] <= '9'
  }

  function Value(digits: string): nat
    requires AllDigits(digits)
  {
    if digits == "" then 0
    else 10 * Value(digits[..|digits| - 1]) + (digits[|digits| - 1] as int - '0' as int)
  }

  function Decimal(n: nat): string {
    (if n < 10 then "" else Decimal(n / 10)) + [(n % 10 + 48) as char]
  }

  function Zeros(k: nat): string {
    seq(k, _ => '0')
  }

  lemma {:induction false} DecimalDigits(n: nat)
    ensures Decimal(n) != "" && AllDigits(Decimal(n))
  {
    if n >= 10 {
      DecimalDigits(n / 10);
    }
  }

  lemma ValueSnoc(s: string, digit: nat)
    requires AllDigits(s) && digit < 10
    ensures var s' := s + [(digit + 48) as char]; AllDigits(s') && Value(s') == 10 * Value(s) + digit
  {
    assert (s + [(digit + 48) as char])[..|s|] == s;
  }

  /** Reading undoes printing, with any number of leading zeros. */
  lemma {:induction false} ValueOfDecimal(n: nat, k: nat)
    ensures AllDigits(Zeros(k) + Decimal(n)) && Value(Zeros(k) + Decimal(n)) == n
  {
    var last := [(n % 10 + 48) as char];
    if n >= 10 {
      ValueOfDecimal(n / 10, k);
      ValueSnoc(Zeros(k) + Decimal(n / 10), n % 10);
      assert Zeros(k) + Decimal(n) == Zeros(k) + Decimal(n / 10) + last;
    } else {
      ValueOfZeros(k);
      ValueSnoc(Zeros(k), n);
      assert Decimal(n) == last;
    }
  }

  lemma {:induction false} ValueOfZeros(k: nat)
    ensures AllDigits(Zeros(k)) && Value(Zeros(k)) == 0
  {
    if k > 0 {
      ValueOfZeros(k - 1);
      assert Zeros(k)[..k - 1] == Zeros(k - 1);
    }
  }

  lemma AppendDigit(k: nat, n: nat, digit: nat) returns (k': nat)
    requires digit < 10
    ensures Zeros(k) + Decimal(n) + [(digit + 48) as char] == Zeros(k') + Decimal(10 * n + digit)
  {
    var c := (digit + 48) as char;
    if n == 0 {
      k' := k + 1;
      assert Decimal(0) == "0" && Decimal(digit) == [c];
      assert Zeros(k) + "0" == Zeros(k + 1);
    } else {
      k' := k;
      assert Decimal(10 * n + digit) == Decimal(n) + [c];
    }
  }

  /** And there is no other way to write digits. */
  lemma {:induction false} DigitsAreDecimal(s: string) returns (k: nat)
    requires s != "" && AllDigits(s)
    ensures s == Zeros(k) + Decimal(Value(s))
  {
    var n := |s| - 1;
    var init, digit := s[..n], s[n] as int - '0' as int;
    assert s == init + [s[n]];
    if init == "" {
      k := 0;
      assert Value(s) == digit && Decimal(digit) == [s[n]];
      assert Zeros(0) + [s[n]] == [s[n]];
    } else {
      var k0 := DigitsAreDecimal(init);
      k := AppendDigit(k0, Value(init), digit);
    }
  }

  // Letters

  function LowerChar(c: char): char {
    if 'A' <= c <= 'Z' then (c as int + 32) as char else c
  }

  /** `to_ascii_lowercase` */
  function Lower(s: string): string {
    seq(|s|, i requires 0 <= i < |s| => LowerChar(s[i]))
  }

  /** `eq_ignore_ascii_case` */
  predicate EqIgnoreCase(s: string, t: string) {
    Lower(s) == Lower(t)
  }

  /** The same character, or an ASCII letter in its two cases. */
  predicate SameLetter(c: char, d: char) {
    || c == d
    || ('A' <= c <= 'Z' && 'a' <= d <= 'z' && c - 'A' == d - 'a')
    || ('a' <= c <= 'z' && 'A' <= d <= 'Z' && c - 'a' == d - 'A')
  }

  /** Two texts are equal ignoring case exactly if they are equal up to the case of letters. */
  lemma EqIgnoreCaseIff(s: string, t: string)
    ensures EqIgnoreCase(s, t) <==> |s| == |t| && forall i :: 0 <= i < |s| ==> SameLetter(s[i], t[i])
  {
    if |s| == |t| {
      forall i | 0 <= i < |s| ensures Lower(s)[i] == Lower(t)[i] <==> SameLetter(s[i], t[i]) {
        assert LowerChar(s[i]) == LowerChar(t[i]) <==> SameLetter(s[i], t[i]);
      }
    } else {
      assert |Lower(s)| != |Lower(t)|;
    }
  }

  lemma LowerHasNoCapitals(s: string)
    ensures Lower(Lower(s)) == Lower(s) && EqIgnoreCase(s, Lower(s))
    ensures forall c :: c in Lower(s) ==> !('A' <= c <= 'Z')
  {
  }
}
