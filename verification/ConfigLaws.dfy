/** The format of a configuration file as such: the texts that are written, which values are taken, and which
    lines mean nothing. */
module ConfigLaws {
  import opened Expressions
  import opened Numbers
  import opened ConfigText

  // ---------------------------------------------------------------- what is written

  /** The lines for a symbol, and the title of a menu or comment. */
  lemma Formats(name: string, text: string, modules: bool)
    ensures WriteLine(name, Boolean, Value.Tri(YES), modules) == WriteLine(name, SymbolType.Tri, Value.Tri(YES), modules) ==
            "CONFIG_" + name + "=" + "y" + "\n"
    ensures WriteLine(name, Boolean, Value.Tri(NO), modules) == WriteLine(name, SymbolType.Tri, Value.Tri(NO), modules) ==
            "# " + "CONFIG_" + name + " " + "is not set" + "\n"
    ensures modules ==> WriteLine(name, SymbolType.Tri, Value.Tri(MOD), modules) == "CONFIG_" + name + "=" + "m" + "\n"
    ensures WriteLine(name, Int, Text(text), modules) == WriteLine(name, Hex, Text(text), modules) == "CONFIG_" + name + "=" + text + "\n"
    ensures WriteLine(name, String, Text(text), modules) == "CONFIG_" + name + "=" + ("\"" + Escape(text) + "\"") + "\n"
    ensures WriteTitle(text) == "\n" + "#\n" + ("# " + text + "\n") + "#\n"
  {
  }

  /** A quote and a backslash get a backslash in front; nothing else changes. */
  lemma Escaped(c: char, rest: string)
    ensures Escape([c] + rest) == (if c == '"' || c == '\\' then "\\" + [c] else [c]) + Escape(rest)
  {
    assert ([c] + rest)[1..] == rest;
  }

  // ---------------------------------------------------------------- which values are taken

  /** Of the value of a boolean or tristate, only the first character counts. */
  lemma FirstCharacter(c: char, rest: string)
    ensures SetValue(Boolean, [c] + rest) == if c == 'y' then Some(Value.Tri(YES)) else if c == 'n' then Some(Value.Tri(NO)) else None
    ensures SetValue(SymbolType.Tri, [c] + rest) ==
            if c == 'y' then Some(Value.Tri(YES)) else if c == 'm' then Some(Value.Tri(MOD)) else if c == 'n' then Some(Value.Tri(NO)) else None
    ensures SetValue(Boolean, "") == SetValue(SymbolType.Tri, "") == None
  {
  }

  predicate PlainDecimal(s: string) { s != "" && (forall i :: 0 <= i < |s| ==> IsDigit(s[i])) && (s[0] == '0' ==> |s| == 1) }

  lemma {:induction false} DigitsPositive(s: string, before: nat)
    requires (forall i :: 0 <= i < |s| ==> IsDigit(s[i])) && (before > 0 || (s != "" && s[0] != '0'))
    ensures Digits(s, 10, before) > 0
    decreases |s|
  {
    if s != "" { DigitsPositive(s[1..], before * 10 + DigitOf(s[0])); }
  }

  lemma {:induction false} DigitsLast(s: string, c: char, before: nat)
    requires (forall i :: 0 <= i < |s| ==> IsDigit(s[i])) && IsDigit(c)
    ensures Digits(s + [c], 10, before) == Digits(s, 10, before) * 10 + DigitOf(c)
  {
    if s == "" {
      assert (s + [c])[1..] == "";
    } else {
      assert (s + [c])[1..] == s[1..] + [c];
      DigitsLast(s[1..], c, before * 10 + DigitOf(s[0]));
    }
  }

  /** A decimal number without leading zeros is printed as it was written. */
  lemma {:induction false} PrintedAsWritten(s: string)
    requires PlainDecimal(s)
    ensures Unsigned(Digits(s, 10, 0), 10) == s
    decreases |s|
  {
    var n := |s| - 1;
    var init, c := s[..n], s[n];
    assert s == init + [c] && DIGITS[DigitOf(c)] == c;
    DigitsLast(init, c, 0);
    if n > 0 {
      PrintedAsWritten(init);
      DigitsPositive(init, 0);
      LastDigit(Digits(init, 10, 0), DigitOf(c));
    }
  }

  lemma LastDigit(n: nat, d: nat)
    requires d < 10
    ensures (n * 10 + d) / 10 == n && (n * 10 + d) % 10 == d
  {
  }

  lemma PrintedPlain(n: nat)
    ensures PlainDecimal(Unsigned(n, 10))
  {
    UnsignedDigits(n, 10);
    UnsignedLeading(n, 10);
    var s := Unsigned(n, 10);
    forall i | 0 <= i < |s| ensures IsDigit(s[i]) { assert PlainDigit(s[i], 10); }
  }

  /** The texts that are valid for an int are exactly those that some number is printed as, and minus zero. */
  lemma ValidIntExactly(s: string)
    ensures ValidInt(s) <==> s == "-0" || exists n: int :: s == Decimal(n)
  {
    if ValidInt(s) {
      var d := IntDigits(s);
      forall i | 0 <= i < |d| ensures IsDigit(d[i]) { assert d[i] in d; }
      PrintedAsWritten(d);
      var n: int := Digits(d, 10, 0);
      if First(s) == '-' {
        assert s == "-" + d;
        if d == "0" {
          assert s == "-0";
        } else {
          if d[0] != '0' { DigitsPositive(d, 0); }
          assert s == Decimal(-n);
        }
      } else {
        assert s == Decimal(n);
      }
    }
    if n: int :| s == Decimal(n) { DecimalValid(n); }
    assert IntDigits("-0") == "0";
  }

  lemma DecimalValid(n: int)
    ensures ValidInt(Decimal(n))
  {
    var size := if n < 0 then -n else n;
    PrintedPlain(size);
    var d := Unsigned(size, 10);
    assert forall c :: c in d ==> IsDigit(c);
    assert IsDigit(d[0]) && IntDigits(Decimal(n)) == d;
  }

  /** Valid for a hexadecimal number is, behind an optional prefix, anything that has only digits of base 16. */
  lemma ValidHexExactly(s: string)
    ensures ValidHex(s) <==> var d := SkipPrefix(s, 16); d != "" && forall c :: c in d ==> DigitOf(c) < 16
  {
    assert HexDigits(s) == SkipPrefix(s, 16);
  }

  /** A number is taken as it stands if it is valid; a string needs its quotes. */
  lemma TextsTaken(p: string)
    ensures SetValue(Int, p) == if ValidInt(p) then Some(Text(p)) else None
    ensures SetValue(Hex, p) == if ValidHex(p) then Some(Text(p)) else None
    ensures p == "" || p[0] != '"' ==> SetValue(String, p) == None
    ensures p != "" && p[0] == '"' && '"' !in p[1..] ==> SetValue(String, p) == None
    ensures SetValue(Unknown, p) == None
  {
    if p != "" && p[0] == '"' && '"' !in p[1..] { NoClosingQuote(p[1..]); }
  }

  lemma {:induction false} NoClosingQuote(s: string)
    requires '"' !in s
    ensures Unescape(s) == None
    decreases |s|
  {
    if s != "" && s[0] != '\\' {
      NoClosingQuote(s[1..]);
    } else if |s| > 1 {
      NoClosingQuote(s[2..]);
    }
  }

  // ---------------------------------------------------------------- which lines mean nothing

  /** A line that begins neither with the prefix nor with a comment sign changes nothing, nor does a comment that
      has no prefix behind its second character. */
  lemma OtherLines(kinds: Kinds, values: Values, line: string)
    requires if First(line) == '#' then |line| < 2 || !StartsWith(line[2..], "CONFIG_") else !StartsWith(line, "CONFIG_")
    ensures ReadLine(kinds, values, line) == values
  {
  }

  /** Nor does a line about a symbol that there is not, or whose value is refused. */
  lemma UnknownOrRefused(kinds: Kinds, values: Values, name: string, value: string)
    requires IsName(name)
    ensures name !in kinds || SetValue(kinds[name], TrimEnd(value)) == None ==>
              ReadLine(kinds, values, "CONFIG_" + name + "=" + value) == values
  {
    var line, s := "CONFIG_" + name + "=" + value, name + ['='] + value;
    assert line == PREFIX + s && line[..|PREFIX|] == PREFIX && line[|PREFIX|..] == s && line[0] == PREFIX[0];
    FindAppend(name, '=', value);
    assert s[..|name|] == name && s[|name| + 1..] == value;
  }

  /** The comment for an unset symbol means nothing for a number or a string. */
  lemma TextsStay(kinds: Kinds, values: Values, name: string)
    requires IsName(name) && (name in kinds ==> kinds[name] != Boolean && kinds[name] != SymbolType.Tri)
    ensures ReadLine(kinds, values, "# " + "CONFIG_" + name + " " + "is not set" + "\n") == values
  {
    var rest := NOT_SET + "\n";
    var s := name + [' '] + rest;
    var line := "# " + "CONFIG_" + name + " " + "is not set" + "\n";
    assert line[2..] == PREFIX + s && line[2..][..|PREFIX|] == PREFIX && line[2 + |PREFIX|..] == s;
    FindAppend(name, ' ', rest);
    assert s[..|name|] == name;
  }

  // ---------------------------------------------------------------- lines

  /** The lines are read one after the other; the last one may lack its end. */
  lemma LinesInOrder(kinds: Kinds, values: Values, line: string, rest: string)
    requires '\n' !in line
    ensures ReadFile(kinds, values, line + "\n" + rest) == ReadFile(kinds, ReadLine(kinds, values, line + "\n"), rest)
    ensures line != "" ==> ReadFile(kinds, values, line) == ReadLine(kinds, values, line)
    ensures ReadFile(kinds, values, "") == values
  {
    assert (line + "\n")[..|line + "\n"| - 1] == line;
    ReadFirst(kinds, values, line + "\n", rest);
    NotFound(line, '\n');
  }

  lemma {:induction false} NotFound(s: string, c: char)
    requires c !in s
    ensures Find(s, c) == |s|
  {
    if s != "" {
      assert s[0] in s && forall x :: x in s[1..] ==> x in s;
      NotFound(s[1..], c);
    }
  }

  /** The line end and one carriage return before it are cut off; behind them nothing counts. */
  lemma LineEnd(p: string, rest: string)
    requires '\n' !in p
    ensures TrimEnd(p + "\r" + "\n" + rest) == p && TrimEnd(p) == p
    ensures p == "" || p[|p| - 1] != '\r' ==> TrimEnd(p + "\n" + rest) == p
  {
    NotFound(p, '\n');
    FindAppend(p, '\n', rest);
    FindAppend(p + "\r", '\n', rest);
    assert p + ['\n'] + rest == p + "\n" + rest && p + "\r" + ['\n'] + rest == p + "\r" + "\n" + rest;
    assert (p + "\n" + rest)[..|p|] == p && (p + "\r" + "\n" + rest)[..|p|] == p;
  }
}
