/** The C++ library calls the HTTP parser leans on: isspace/tolower in the C locale, `trim`, `istringstream >>`
    and `std::stoul` in base 10. */
module HttpText {
  import opened Bytes

  predicate IsSpace(c: Byte) {
    c == ' ' || '\t' <= c <= '\r'
  }

  /** The six characters `isspace` knows in the C locale: space, tab, LF, vertical tab, form feed, CR. */
  lemma SpacesExact(c: Byte)
    ensures IsSpace(c) <==> c as int in {32, 9, 10, 11, 12, 13}
  {
    assert '\t' as int == 9 && '\r' as int == 13 && ' ' as int == 32;
  }

  function TrimStart(s: Text): (r: Text)
    ensures |r| <= |s| && (r == [] || !IsSpace(r[0]))
  {
    if s != [] && IsSpace(s[0]) then TrimStart(s[1..]) else s
  }

  function TrimEnd(s: Text): Text {
    if s != [] && IsSpace(s[|s| - 1]) then TrimEnd(s[..|s| - 1]) else s
  }

  function Trim(s: Text): Text { TrimEnd(TrimStart(s)) }

  ghost predicate Trimmed(s: Text) {
    s == [] || (!IsSpace(s[0]) && !IsSpace(s[|s| - 1]))
  }

  function ToLower(s: Text): (r: Text)
    ensures |r| == |s|
  {
    seq(|s|, i requires 0 <= i < |s| => if 'A' <= s[i] <= 'Z' then s[i] - 'A' + 'a' else s[i])
  }

  /** Two letters that differ at most in case. */
  predicate SameLetter(c: Byte, d: Byte) {
    c == d || ('A' <= c <= 'Z' && d == c + ('a' - 'A')) || ('A' <= d <= 'Z' && c == d + ('a' - 'A'))
  }

  /** Header names, and the words some values are compared with, match letter by letter in any mixture of case. */
  predicate SameName(a: Text, b: Text) {
    |a| == |b| && forall i | 0 <= i < |a| :: SameLetter(a[i], b[i])
  }

  lemma LowerExact(a: Text, b: Text)
    ensures ToLower(a) == ToLower(b) <==> SameName(a, b)
  {
    var x, y := ToLower(a), ToLower(b);
    if x == y {
      forall i | 0 <= i < |a| ensures SameLetter(a[i], b[i]) {
        assert x[i] == y[i];
      }
    }
  }

  ghost predicate LowerCase(s: Text) { forall i | 0 <= i < |s| :: !('A' <= s[i] <= 'Z') }

  /** Lower-casing and comparing with a lower-case word is matching in any case. */
  lemma MatchesExact(a: Text, word: Text)
    requires LowerCase(word)
    ensures ToLower(a) == word <==> SameName(a, word)
  {
    LowerExact(a, word);
    assert ToLower(word) == word;
  }

  ghost predicate IsBlank(s: Text) { forall c | c in s :: IsSpace(c) }

  /** What is left of `s` without the white space around it. */
  ghost predicate IsCore(s: Text, r: Text) {
    Trimmed(r) && exists lead: Text, tail: Text :: IsBlank(lead) && IsBlank(tail) && s == lead + (r + tail)
  }

  lemma TrimExact(s: Text, r: Text)
    ensures Trim(s) == r <==> IsCore(s, r)
  {
    if IsCore(s, r) {
      var lead: Text, tail: Text :| IsBlank(lead) && IsBlank(tail) && s == lead + (r + tail);
      CoreIsTrimmed(lead, r, tail);
    }
    if Trim(s) == r {
      var lead, t := BlankStart(s);
      var tail := BlankEnd(t);
      assert r == [] || r[0] == t[0];
    }
  }

  lemma {:induction false} BlankStart(s: Text) returns (lead: Text, t: Text)
    ensures t == TrimStart(s) && s == lead + t && IsBlank(lead)
  {
    if s != [] && IsSpace(s[0]) {
      var more;
      more, t := BlankStart(s[1..]);
      lead := [s[0]] + more;
      assert s == [s[0]] + s[1..];
    } else {
      lead, t := [], s;
    }
  }

  lemma {:induction false} BlankEnd(s: Text) returns (tail: Text)
    ensures s == TrimEnd(s) + tail && IsBlank(tail)
    ensures TrimEnd(s) == [] || !IsSpace(TrimEnd(s)[|TrimEnd(s)| - 1])
  {
    if s != [] && IsSpace(s[|s| - 1]) {
      var more := BlankEnd(s[..|s| - 1]);
      tail := more + [s[|s| - 1]];
      assert s == s[..|s| - 1] + [s[|s| - 1]];
      Assoc(TrimEnd(s), more, [s[|s| - 1]]);
    } else {
      tail := [];
      Units(s);
    }
  }

  lemma CoreIsTrimmed(lead: Text, r: Text, tail: Text)
    requires IsBlank(lead) && IsBlank(tail) && Trimmed(r)
    ensures Trim(lead + (r + tail)) == r
  {
    if r == [] {
      assert lead + (r + tail) == (lead + tail) + [];
      SkipStart(lead + tail, []);
      assert TrimEnd([]) == [];
    } else {
      assert (r + tail)[0] == r[0];
      SkipStart(lead, r + tail);
      SkipEnd(r, tail);
    }
  }

  lemma {:induction false} SkipStart(lead: Text, t: Text)
    requires IsBlank(lead) && (t == [] || !IsSpace(t[0]))
    ensures TrimStart(lead + t) == t
  {
    if lead == [] {
      assert lead + t == t;
    } else {
      assert (lead + t)[0] == lead[0] && (lead + t)[1..] == lead[1..] + t && lead[0] in lead;
      SkipStart(lead[1..], t);
    }
  }

  lemma {:induction false} SkipEnd(t: Text, tail: Text)
    requires IsBlank(tail) && (t == [] || !IsSpace(t[|t| - 1]))
    ensures TrimEnd(t + tail) == t
  {
    if tail == [] {
      assert t + tail == t;
    } else {
      var s, n := t + tail, |tail| - 1;
      assert s[|s| - 1] == tail[n] && s[..|s| - 1] == t + tail[..n] && tail[n] in tail;
      SkipEnd(t, tail[..n]);
    }
  }

  /** The word `s` starts with, if any. */
  function Word(s: Text): (w: Text)
    ensures |w| <= |s| && (s != [] && !IsSpace(s[0]) ==> w != [])
  {
    if s != [] && !IsSpace(s[0]) then [s[0]] + Word(s[1..]) else []
  }

  /** The words `>>` extracts, one after the other. */
  function Words(s: Text): seq<Text>
    decreases |s|
  {
    var t := TrimStart(s);
    if t == [] then [] else [Word(t)] + Words(t[|Word(t)|..])
  }

  ghost predicate IsWord(s: Text) {
    s != [] && forall c | c in s :: !IsSpace(c)
  }

  predicate IsDigit(c: Byte) { '0' <= c <= '9' }

  /** The digits `s` starts with. */
  function Digits(s: Text): Text {
    if s != [] && IsDigit(s[0]) then [s[0]] + Digits(s[1..]) else []
  }

  function DigitValue(c: Byte): nat {
    if IsDigit(c) then c as nat - '0' as nat else 0
  }

  function Value(digits: Text): nat {
    if digits == [] then 0 else Value(digits[..|digits| - 1]) * 10 + DigitValue(digits[|digits| - 1])
  }

  const ULONG_RANGE: nat := 0x1_0000_0000_0000_0000

  /** `std::stoul`: leading space, an optional sign, the longest run of digits; what follows is ignored and a
      minus sign wraps around. None stands for the exceptions it throws. */
  function Stoul(s: Text): Option<nat> {
    var t := TrimStart(s);
    var minus := t != [] && t[0] == '-';
    var u := if t != [] && (t[0] == '-' || t[0] == '+') then t[1..] else t;
    var n := Value(Digits(u));
    if Digits(u) == [] || n >= ULONG_RANGE then None
    else if minus then Some((ULONG_RANGE - n) % ULONG_RANGE)
    else Some(n)
  }

  ghost predicate AllDigit(s: Text) { forall i | 0 <= i < |s| :: IsDigit(s[i]) }

  /** `s` begins with the number `n`: white space, at most one sign, digits and no further digit; with a minus sign
      the value wraps around. */
  ghost predicate IsNumber(s: Text, n: nat) {
    exists lead: Text, sign: Text, digits: Text, tail: Text :: NumberParts(s, n, lead, sign, digits, tail)
  }

  ghost predicate NumberParts(s: Text, n: nat, lead: Text, sign: Text, digits: Text, tail: Text) {
    && s == lead + (sign + (digits + tail))
    && IsBlank(lead) && (sign == [] || sign == ['+'] || sign == ['-'])
    && digits != [] && AllDigit(digits) && (tail == [] || !IsDigit(tail[0])) && Value(digits) < ULONG_RANGE
    && n == if sign == ['-'] && Value(digits) > 0 then ULONG_RANGE - Value(digits) else Value(digits)
  }

  lemma StoulExact(s: Text, n: nat)
    ensures Stoul(s) == Some(n) <==> IsNumber(s, n)
  {
    hide Stoul, Value, Digits, IsBlank, AllDigit;
    if IsNumber(s, n) {
      var lead: Text, sign: Text, digits: Text, tail: Text :| NumberParts(s, n, lead, sign, digits, tail);
      NumberIsRead(s, n, lead, sign, digits, tail);
    }
    if Stoul(s) == Some(n) {
      NumberIsThere(s, n);
    }
  }

  lemma NumberIsThere(s: Text, n: nat)
    requires Stoul(s) == Some(n)
    ensures IsNumber(s, n)
  {
    hide Value, Digits, TrimStart, IsBlank, AllDigit;
    var lead, t := BlankStart(s);
    var sign := if t != [] && (t[0] == '-' || t[0] == '+') then [t[0]] else [];
    var u := if sign == [] then t else t[1..];
    assert t == sign + u;
    var tail := DigitsFirst(u);
    assert NumberParts(s, n, lead, sign, Digits(u), tail);
  }

  lemma {:induction false} DigitsFirst(u: Text) returns (tail: Text)
    ensures u == Digits(u) + tail && AllDigit(Digits(u)) && (tail == [] || !IsDigit(tail[0]))
  {
    if u != [] && IsDigit(u[0]) {
      tail := DigitsFirst(u[1..]);
      assert u == [u[0]] + u[1..];
      Assoc([u[0]], Digits(u[1..]), tail);
    } else {
      tail := u;
      Units(u);
    }
  }

  lemma {:induction false} DigitsThen(digits: Text, tail: Text)
    requires AllDigit(digits) && (tail == [] || !IsDigit(tail[0]))
    ensures Digits(digits + tail) == digits
  {
    if digits == [] {
      assert digits + tail == tail;
    } else {
      assert (digits + tail)[0] == digits[0] && (digits + tail)[1..] == digits[1..] + tail;
      DigitsThen(digits[1..], tail);
    }
  }

  lemma NumberIsRead(s: Text, n: nat, lead: Text, sign: Text, digits: Text, tail: Text)
    requires NumberParts(s, n, lead, sign, digits, tail)
    ensures Stoul(s) == Some(n)
  {
    hide Value;
    var u := digits + tail;
    assert u[0] == digits[0] && IsDigit(digits[0]);
    assert (sign + u)[0] == if sign == [] then u[0] else sign[0];
    assert sign != [] ==> (sign + u)[1..] == u;
    assert sign == [] ==> sign + u == u;
    SkipStart(lead, sign + u);
    DigitsThen(digits, tail);
  }

  /** How a length is printed (`std::to_string`). */
  function Decimal(n: nat): (s: Text)
    ensures s != [] && forall i | 0 <= i < |s| :: IsDigit(s[i])
  {
    (if n < 10 then [] else Decimal(n / 10)) + ['0' + (n % 10) as char]
  }

  lemma {:induction false} ValueOfDecimal(n: nat)
    ensures Value(Decimal(n)) == n
  {
    var s := Decimal(n);
    assert DigitValue(s[|s| - 1]) == n % 10;
    if n < 10 {
      assert s[..|s| - 1] == [];
    } else {
      ValueOfDecimal(n / 10);
      assert s[..|s| - 1] == Decimal(n / 10);
    }
  }

  lemma AllDigits(s: Text)
    requires forall i | 0 <= i < |s| :: IsDigit(s[i])
    ensures Digits(s) == s
  {
  }

  lemma StoulOfDecimal(n: nat)
    requires n < ULONG_RANGE
    ensures Stoul(Decimal(n)) == Some(n) && Trimmed(Decimal(n))
  {
    var s := Decimal(n);
    assert IsDigit(s[0]) && IsDigit(s[|s| - 1]);
    assert TrimStart(s) == s;
    AllDigits(s);
    ValueOfDecimal(n);
  }

  lemma TrimOfTrimmed(s: Text)
    requires Trimmed(s)
    ensures Trim(s) == s && Trim([' '] + s) == s
  {
    assert ([' '] + s)[1..] == s;
    assert TrimStart([' '] + s) == TrimStart(s);
  }

  lemma {:induction false} WordThen(w: Text, rest: Text)
    requires forall c | c in w :: !IsSpace(c)
    requires rest == [] || IsSpace(rest[0])
    ensures Word(w + rest) == w
  {
    if w == [] {
      assert w + rest == rest;
    } else {
      assert w[0] in w && (w + rest)[0] == w[0];
      assert (w + rest)[1..] == w[1..] + rest;
      WordThen(w[1..], rest);
    }
  }

  lemma WordsCons(w: Text, rest: Text)
    requires IsWord(w) && (rest == [] || IsSpace(rest[0]))
    ensures Words(w + rest) == [w] + Words(rest)
    ensures Words([' '] + w + rest) == [w] + Words(rest)
  {
    var s := w + rest;
    WordThen(w, rest);
    assert w[0] in w && s[0] == w[0];
    assert s[|w|..] == rest;
    Assoc([' '], w, rest);
    SpaceFirst(s);
  }

  lemma SpaceFirst(s: Text)
    requires TrimStart(s) == s
    ensures Words([' '] + s) == Words(s)
  {
    assert ([' '] + s)[1..] == s;
    assert TrimStart([' '] + s) == s;
  }

  lemma LastWord(w: Text)
    requires IsWord(w)
    ensures Words([' '] + w) == [w]
  {
    WordsCons(w, []);
    assert [' '] + w + [] == [' '] + w;
    assert Words([]) == [];
  }

  lemma Regroup(a: Text, s: Text, b: Text, t: Text, c: Text)
    ensures a + s + b + t + c == a + (s + b + (t + c))
  {
    Assoc(a + s + b, t, c);
    Assoc(a + s, b, t + c);
    Assoc(a, s, b + (t + c));
    Assoc(s, b, t + c);
  }

  lemma ThreeWords(a: Text, b: Text, c: Text)
    requires IsWord(a) && IsWord(b) && IsWord(c)
    ensures Words(a + [' '] + b + [' '] + c) == [a, b, c]
  {
    var sp: Text := [' '];
    Regroup(a, sp, b, sp, c);
    LastWord(c);
    WordsCons(b, sp + c);
    WordsCons(a, sp + b + (sp + c));
  }
}
