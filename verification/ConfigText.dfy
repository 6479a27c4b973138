/** The lines of a configuration file: what the writer prints for a symbol and what the reader
    makes of a line. */
module ConfigText {
  import opened Expressions

  const PREFIX := "CONFIG_"
  const NOT_SET := "is not set"
  const NUL := 0 as char

  /** The value of a symbol: a tristate or a text, depending on its type. */
  datatype Value = Tri(tri: Tristate) | Text(text: string)

  // ---------------------------------------------------------------- C strings

  predicate StartsWith(s: string, prefix: string) { |prefix| <= |s| && s[..|prefix|] == prefix }

  /** `strchr`: the position of c, or the end. */
  function Find(s: string, c: char): (k: nat)
    ensures k <= |s| && (k < |s| ==> s[k] == c) && c !in s[..k]
  {
    if s == "" || s[0] == c then 0 else 1 + Find(s[1..], c)
  }

  /** The first character, or the terminator. */
  function First(s: string): char { if s == "" then NUL else s[0] }

  lemma {:induction false} FindAppend(s: string, c: char, t: string)
    requires c !in s
    ensures Find(s + [c] + t, c) == |s|
  {
    if s != "" {
      assert s[0] in s;
      assert forall x :: x in s[1..] ==> x in s;
      assert (s + [c] + t)[1..] == s[1..] + [c] + t;
      FindAppend(s[1..], c, t);
    }
  }

  // ---------------------------------------------------------------- quoting

  predicate IsSpecial(c: char) { c == '"' || c == '\\' }

  /** The text between the quotes that `sym_escape_string_value` adds. */
  function Escape(s: string): (r: string) {
    if s == "" then "" else (if IsSpecial(s[0]) then ['\\', s[0]] else [s[0]]) + Escape(s[1..])
  }

  function Specials(s: string): nat {
    if s == "" then 0 else (if IsSpecial(s[0]) then 1 else 0) + Specials(s[1..])
  }

  /** The text up to the closing quote with the escapes undone, if there is a closing quote. */
  function Unescape(s: string): Option<string> {
    if s == "" then None
    else if s[0] == '"' then Some("")
    else if s[0] != '\\' then Prepend([s[0]], Unescape(s[1..]))
    else if |s| == 1 then None
    else Prepend([s[1]], Unescape(s[2..]))
  }

  function Prepend(s: string, t: Option<string>): Option<string> {
    if t.None? then None else Some(s + t.value)
  }

  lemma {:induction false} EscapeFacts(s: string)
    ensures |Escape(s)| == |s| + Specials(s)
    ensures forall c :: c in Escape(s) <==> c in s || (c == '\\' && exists d :: d in s && IsSpecial(d))
  {
    if s != "" {
      EscapeFacts(s[1..]);
      assert s == [s[0]] + s[1..];
    }
  }

  /** The reader's unescaping inverts the writer's escaping, whatever follows the closing quote. */
  lemma {:induction false} UnescapeEscape(s: string, tail: string)
    ensures Unescape(Escape(s) + "\"" + tail) == Some(s)
  {
    var t := Escape(s) + "\"" + tail;
    if s == "" {
      assert t[0] == '"';
    } else {
      UnescapeEscape(s[1..], tail);
      var rest := Escape(s[1..]) + "\"" + tail;
      if IsSpecial(s[0]) {
        assert t == ['\\', s[0]] + rest;
        assert t[2..] == rest;
      } else {
        assert t == [s[0]] + rest;
        assert t[1..] == rest;
      }
      assert [s[0]] + s[1..] == s;
    }
  }

  // ---------------------------------------------------------------- numbers

  predicate IsDigit(c: char) { '0' <= c <= '9' }

  predicate IsHexDigit(c: char) { IsDigit(c) || 'a' <= c <= 'f' || 'A' <= c <= 'F' }

  function IntDigits(s: string): string { if First(s) == '-' then s[1..] else s }

  function HexDigits(s: string): string {
    if |s| >= 2 && s[0] == '0' && (s[1] == 'x' || s[1] == 'X') then s[2..] else s
  }

  /** `sym_string_valid` for S_INT: an optional sign and digits without a leading zero. */
  predicate ValidInt(s: string) {
    var digits := IntDigits(s);
    digits != "" && (forall c :: c in digits ==> IsDigit(c)) && (digits[0] == '0' ==> |digits| == 1)
  }

  /** `sym_string_valid` for S_HEX. */
  predicate ValidHex(s: string) {
    HexDigits(s) != "" && forall c :: c in HexDigits(s) ==> IsHexDigit(c)
  }

  // ---------------------------------------------------------------- the writer

  /** `sym_get_string_value` and `conf_write_symbol` with the printer for configuration files. */
  function WriteLine(name: string, kind: SymbolType, v: Value, modules: bool): string {
    match kind
    case Unknown => ""
    case String => if v.Text? then Assignment(name, "\"" + Escape(v.text) + "\"") else ""
    case Int => if v.Text? then Assignment(name, v.text) else ""
    case Hex => if v.Text? then Assignment(name, v.text) else ""
    case _ => if v.Text? then "" else WriteTristate(name, TristateText(v.tri, modules))
  }

  function WriteTristate(name: string, value: string): string {
    if First(value) == 'n' then "# " + PREFIX + name + " " + NOT_SET + "\n" else Assignment(name, value)
  }

  function Assignment(name: string, value: string): string { PREFIX + name + "=" + value + "\n" }

  // ---------------------------------------------------------------- the reader

  /** The value of a line `NAME=...` without its end. */
  function TrimEnd(p: string): string {
    var k := Find(p, '\n');
    if k == |p| then p
    else if k > 0 && p[k - 1] == '\r' then p[..k - 1]
    else p[..k]
  }

  /** `conf_set_sym_val`: the new value, or None when the text is refused or ignored. */
  function SetValue(kind: SymbolType, p: string): Option<Value> {
    match kind
    case Tri =>
      if First(p) == 'm' then Some(Value.Tri(MOD)) else SetBoolean(p)
    case Boolean => SetBoolean(p)
    case String =>
      if First(p) != '"' then None
      else
        var text := Unescape(p[1..]);
        if text.None? then None else Some(Text(text.value))
    case Int => if ValidInt(p) then Some(Text(p)) else None
    case Hex => if ValidHex(p) then Some(Text(p)) else None
    case Unknown => None
  }

  function SetBoolean(p: string): Option<Value> {
    if First(p) == 'y' then Some(Value.Tri(YES)) else if First(p) == 'n' then Some(Value.Tri(NO)) else None
  }

  type Kinds = map<string, SymbolType>
  type Values = map<string, Value>

  /** One line of `conf_read_simple` for the user's values. */
  function ReadLine(kinds: Kinds, values: Values, line: string): Values {
    if First(line) == '#' then
      if |line| >= 2 && StartsWith(line[2..], PREFIX) then ReadUnset(kinds, values, line[2 + |PREFIX|..]) else values
    else if StartsWith(line, PREFIX) then ReadAssignment(kinds, values, line[|PREFIX|..])
    else values
  }

  function ReadUnset(kinds: Kinds, values: Values, s: string): Values {
    var k := Find(s, ' ');
    if k == |s| || !StartsWith(s[k + 1..], NOT_SET) || s[..k] !in kinds then values
    else if kinds[s[..k]] == Boolean || kinds[s[..k]] == SymbolType.Tri then values[s[..k] := Value.Tri(NO)]
    else values
  }

  function ReadAssignment(kinds: Kinds, values: Values, s: string): Values {
    var k := Find(s, '=');
    if k == |s| || s[..k] !in kinds then values
    else
      var v := SetValue(kinds[s[..k]], TrimEnd(s[k + 1..]));
      if v.Some? then values[s[..k] := v.value] else values
  }

  // ---------------------------------------------------------------- round trip of a line

  /** What the scanner accepts as a symbol name. */
  predicate IsName(s: string) {
    forall c :: c in s ==> c != ' ' && c != '=' && c != '\n' && c != '\r' && c != NUL
  }

  /** The values the file format can carry. */
  predicate Storable(kind: SymbolType, v: Value, modules: bool) {
    match kind
    case Unknown => false
    case String => v.Text? && '\n' !in v.text
    case Int => v.Text? && ValidInt(v.text)
    case Hex => v.Text? && ValidHex(v.text)
    case Tri => v.Tri? && (v.tri == MOD ==> modules)
    case Boolean => v.Tri? && v.tri != MOD
  }

  /** A boolean or tristate symbol has a tristate value, the others have a text. */
  predicate Typed(kind: SymbolType, v: Value) {
    kind != Unknown && (v.Tri? <==> kind == Boolean || kind == SymbolType.Tri)
  }

  lemma TrimOneLine(p: string)
    requires '\n' !in p
    ensures TrimEnd(p + "\n") == if |p| > 0 && p[|p| - 1] == '\r' then p[..|p| - 1] else p
    ensures TrimEnd(p + "\r\n") == p
  {
    FindAppend(p, '\n', "");
    assert p + ['\n'] + "" == p + "\n";
    var q := p + "\r";
    FindAppend(q, '\n', "");
    assert q + ['\n'] + "" == p + "\r\n";
    assert (p + "\n")[..|p|] == p && (p + "\r\n")[..|p|] == p;
  }

  /** Reading an assignment to a known symbol. */
  lemma ReadAssigned(kinds: Kinds, values: Values, name: string, value: string)
    requires IsName(name) && name in kinds
    ensures ReadLine(kinds, values, PREFIX + name + "=" + value) ==
            var v := SetValue(kinds[name], TrimEnd(value));
            if v.Some? then values[name := v.value] else values
  {
    var line := PREFIX + name + "=" + value;
    var s := name + ['='] + value;
    assert line == PREFIX + s;
    assert line[..|PREFIX|] == PREFIX && line[|PREFIX|..] == s;
    assert line[0] == PREFIX[0];
    FindAppend(name, '=', value);
    assert s[..|name|] == name && s[|name| + 1..] == value;
  }

  /** Reading the comment for an unset symbol. */
  lemma ReadCleared(kinds: Kinds, values: Values, name: string, tail: string)
    requires IsName(name) && name in kinds && (kinds[name] == Boolean || kinds[name] == SymbolType.Tri)
    ensures ReadLine(kinds, values, "# " + PREFIX + name + " " + NOT_SET + tail) == values[name := Value.Tri(NO)]
  {
    var s := name + [' '] + (NOT_SET + tail);
    var line := "# " + PREFIX + name + " " + NOT_SET + tail;
    assert line[..2 + |PREFIX|] == "# " + PREFIX && line[2 + |PREFIX|..] == s;
    assert line[2..][..|PREFIX|] == PREFIX;
    UnsetName(kinds, values, name, tail);
  }

  lemma UnsetName(kinds: Kinds, values: Values, name: string, tail: string)
    requires IsName(name) && name in kinds && (kinds[name] == Boolean || kinds[name] == SymbolType.Tri)
    ensures ReadUnset(kinds, values, name + [' '] + (NOT_SET + tail)) == values[name := Value.Tri(NO)]
  {
    var rest := NOT_SET + tail;
    var s := name + [' '] + rest;
    FindAppend(name, ' ', rest);
    assert s[..|name|] == name && s[|name| + 1..] == rest && rest[..|NOT_SET|] == NOT_SET;
  }

  lemma StoresExactly(values: Values, name: string, w: Option<Value>, v: Value)
    requires name !in values
    ensures (if w.Some? then values[name := w.value] else values) == values[name := v] <==> w == Some(v)
  {
    assert values[name := v][name] == v;
    if w.Some? { assert values[name := w.value][name] == w.value; }
  }

  /** The text printed for the value of a symbol that is set. */
  function ValueText(kind: SymbolType, v: Value, modules: bool): string {
    if v.Tri? then TristateText(v.tri, modules)
    else if kind == String then "\"" + Escape(v.text) + "\"" else v.text
  }

  /** A number has no line end in it. */
  lemma NumberOneLine(s: string)
    requires ValidInt(s) || ValidHex(s)
    ensures '\n' !in s && '\r' !in s
  {
    if ValidInt(s) {
      assert s == IntDigits(s) || s == "-" + IntDigits(s);
    } else {
      assert s == HexDigits(s) || s == s[..2] + HexDigits(s);
    }
  }

  lemma ValueOneLine(kind: SymbolType, v: Value, modules: bool)
    requires Typed(kind, v) && (v.Text? ==> '\n' !in v.text)
    ensures '\n' !in ValueText(kind, v, modules)
  {
    if v.Text? { EscapeFacts(v.text); }
  }

  lemma NumberExactly(kind: SymbolType, text: string)
    requires (kind == Int || kind == Hex) && '\n' !in text
    ensures SetValue(kind, TrimEnd(text + "\n")) == Some(Text(text)) <==> Storable(kind, Text(text), false)
  {
    TrimOneLine(text);
    if ValidInt(text) || ValidHex(text) { NumberOneLine(text); }
  }

  lemma StringExactly(text: string)
    requires '\n' !in text
    ensures SetValue(String, TrimEnd("\"" + Escape(text) + "\"" + "\n")) == Some(Text(text))
  {
    var value := "\"" + Escape(text) + "\"";
    EscapeFacts(text);
    UnescapeEscape(text, "");
    assert value[1..] == Escape(text) + "\"" + "";
    TrimOneLine(value);
  }

  lemma SetsExactly(kind: SymbolType, v: Value, modules: bool)
    requires Typed(kind, v) && (v.Text? ==> '\n' !in v.text)
    requires v.Tri? ==> First(ValueText(kind, v, modules)) != 'n'
    ensures SetValue(kind, TrimEnd(ValueText(kind, v, modules) + "\n")) == Some(v) <==> Storable(kind, v, modules)
  {
    if v.Tri? {
      TrimOneLine(TristateText(v.tri, modules));
    } else if kind == String {
      StringExactly(v.text);
    } else {
      NumberExactly(kind, v.text);
    }
  }

  lemma LineText(name: string, kind: SymbolType, v: Value, modules: bool)
    requires Typed(kind, v)
    ensures var value := ValueText(kind, v, modules);
            WriteLine(name, kind, v, modules) ==
            if v.Tri? && First(value) == 'n' then "# " + PREFIX + name + " " + NOT_SET + "\n"
            else PREFIX + name + "=" + (value + "\n")
  {
  }

  /** A line is read back as the value it was written for exactly if the format can carry the value. */
  lemma LineRoundTrip(kinds: Kinds, values: Values, name: string, v: Value, modules: bool)
    requires IsName(name) && name in kinds && Typed(kinds[name], v) && name !in values
    requires v.Text? ==> '\n' !in v.text
    ensures ReadLine(kinds, values, WriteLine(name, kinds[name], v, modules)) == values[name := v] <==>
            Storable(kinds[name], v, modules)
  {
    var kind := kinds[name];
    var value := ValueText(kind, v, modules);
    LineText(name, kind, v, modules);
    if v.Tri? && First(value) == 'n' {
      ReadCleared(kinds, values, name, "\n");
      StoresExactly(values, name, Some(Value.Tri(NO)), v);
    } else {
      ReadAssigned(kinds, values, name, value + "\n");
      SetsExactly(kind, v, modules);
      StoresExactly(values, name, SetValue(kind, TrimEnd(value + "\n")), v);
    }
  }

  /** The same line with a carriage return before its end reads the same. */
  lemma CarriageReturn(kinds: Kinds, values: Values, name: string, v: Value, modules: bool)
    requires IsName(name) && name in kinds && Storable(kinds[name], v, modules)
    ensures var line := WriteLine(name, kinds[name], v, modules);
            && line != "" && line[|line| - 1] == '\n'
            && ReadLine(kinds, values, line[..|line| - 1] + "\r\n") == ReadLine(kinds, values, line)
  {
    var kind := kinds[name];
    var value := ValueText(kind, v, modules);
    LineText(name, kind, v, modules);
    var line := WriteLine(name, kind, v, modules);
    if v.Tri? && First(value) == 'n' {
      ReadCleared(kinds, values, name, "\n");
      ReadCleared(kinds, values, name, "\r\n");
      BeforeEnd("# " + PREFIX + name + " " + NOT_SET);
    } else {
      AssignedEither(kinds, values, name, kind, v, modules);
    }
  }

  lemma AssignedEither(kinds: Kinds, values: Values, name: string, kind: SymbolType, v: Value, modules: bool)
    requires IsName(name) && name in kinds && kinds[name] == kind && Storable(kind, v, modules)
    ensures var line := PREFIX + name + "=" + (ValueText(kind, v, modules) + "\n");
            && line != "" && line[|line| - 1] == '\n'
            && ReadLine(kinds, values, line[..|line| - 1] + "\r\n") == ReadLine(kinds, values, line)
  {
    var value := ValueText(kind, v, modules);
    ReadAssigned(kinds, values, name, value + "\n");
    ReadAssigned(kinds, values, name, value + "\r\n");
    TrimEither(kind, v, modules);
    var head := PREFIX + name + "=";
    BeforeEnd(head + value);
    assert head + value + "\n" == head + (value + "\n");
    assert head + value + "\r\n" == head + (value + "\r\n");
  }

  lemma BeforeEnd(s: string)
    ensures var line := s + "\n"; line[..|line| - 1] == s && line[|line| - 1] == '\n'
  {
  }

  lemma TrimEither(kind: SymbolType, v: Value, modules: bool)
    requires Storable(kind, v, modules)
    ensures var value := ValueText(kind, v, modules);
            TrimEnd(value + "\r\n") == TrimEnd(value + "\n") == value
  {
    var value := ValueText(kind, v, modules);
    if kind == Int || kind == Hex { NumberOneLine(v.text); }
    ValueOneLine(kind, v, modules);
    TrimOneLine(value);
  }

  // ---------------------------------------------------------------- round trip of a file

  /** The lines one after the other; the last one may lack its end. */
  function ReadFile(kinds: Kinds, values: Values, text: string): Values
    decreases |text|
  {
    var k := Find(text, '\n');
    if text == "" then values
    else if k == |text| then ReadLine(kinds, values, text)
    else ReadFile(kinds, ReadLine(kinds, values, text[..k + 1]), text[k + 1..])
  }

  /** What the menu walk writes: a symbol with its value, or the title of a menu or comment. */
  datatype Entry = Entry(name: string, value: Value) | Title(text: string)

  function WriteTitle(text: string): string { "\n" + "#\n" + ("# " + text + "\n") + "#\n" }

  function WriteEntry(kinds: Kinds, e: Entry, modules: bool): string
    requires e.Entry? ==> e.name in kinds
  {
    match e
    case Entry(name, v) => WriteLine(name, kinds[name], v, modules)
    case Title(text) => WriteTitle(text)
  }

  /** The entries of a configuration in the order of the menu walk. */
  function WriteFile(kinds: Kinds, entries: seq<Entry>, modules: bool): string
    requires forall e :: e in entries && e.Entry? ==> e.name in kinds
  {
    if entries == [] then "" else WriteEntry(kinds, entries[0], modules) + WriteFile(kinds, entries[1..], modules)
  }

  function ValuesOf(values: Values, entries: seq<Entry>): Values
    decreases |entries|
  {
    if entries == [] then values
    else if entries[0].Title? then ValuesOf(values, entries[1..])
    else ValuesOf(values[entries[0].name := entries[0].value], entries[1..])
  }

  /** Every symbol occurs once, with a value of its type. */
  ghost predicate Proper(kinds: Kinds, entries: seq<Entry>) {
    && (forall e :: e in entries && e.Entry? ==> IsName(e.name) && e.name in kinds && Typed(kinds[e.name], e.value))
    && forall i, j :: 0 <= i < j < |entries| && entries[i].Entry? && entries[j].Entry? ==> entries[i].name != entries[j].name
  }

  /** A title that the reader takes for the comment about an unset boolean or tristate symbol. */
  predicate Unsets(kinds: Kinds, text: string) {
    StartsWith(text, PREFIX) &&
    var s := text[|PREFIX|..];
    var k := Find(s, ' ');
    k < |s| && StartsWith(s[k + 1..], NOT_SET) && s[..k] in kinds && (kinds[s[..k]] == Boolean || kinds[s[..k]] == SymbolType.Tri)
  }

  predicate Harmless(kinds: Kinds, text: string) { '\n' !in text && !Unsets(kinds, text) }

  lemma WrittenIsOneLine(name: string, kind: SymbolType, v: Value, modules: bool)
    requires IsName(name) && Typed(kind, v) && (v.Text? ==> '\n' !in v.text)
    ensures var line := WriteLine(name, kind, v, modules);
            line != "" && line[|line| - 1] == '\n' && '\n' !in line[..|line| - 1]
  {
    var value := ValueText(kind, v, modules);
    LineText(name, kind, v, modules);
    ValueOneLine(kind, v, modules);
    var line := WriteLine(name, kind, v, modules);
    if v.Tri? && First(value) == 'n' {
      assert line[..|line| - 1] == "# " + PREFIX + name + " " + NOT_SET;
    } else {
      assert line[..|line| - 1] == PREFIX + name + "=" + value;
    }
  }

  /** The reader takes a file line by line. */
  lemma ReadFirst(kinds: Kinds, values: Values, line: string, rest: string)
    requires line != "" && line[|line| - 1] == '\n' && '\n' !in line[..|line| - 1]
    ensures ReadFile(kinds, values, line + rest) == ReadFile(kinds, ReadLine(kinds, values, line), rest)
  {
    var k := |line| - 1;
    FindAppend(line[..k], '\n', rest);
    assert line[..k] + ['\n'] + rest == line + rest;
    assert (line + rest)[..k + 1] == line && (line + rest)[k + 1..] == rest;
  }

  /** The line of a title changes nothing exactly if the title is harmless. */
  lemma TitleLine(kinds: Kinds, values: Values, text: string)
    requires '\n' !in text
    ensures Harmless(kinds, text) ==> ReadLine(kinds, values, "# " + text + "\n") == values
    ensures Unsets(kinds, text) ==>
              var s := text[|PREFIX|..];
              ReadLine(kinds, values, "# " + text + "\n") == values[s[..Find(s, ' ')] := Value.Tri(NO)]
  {
    var line := "# " + text + "\n";
    assert line[2..] == text + "\n";
    PrefixOfLine(text);
    if StartsWith(text, PREFIX) {
      var s := text[|PREFIX|..];
      assert line[2 + |PREFIX|..] == (text + "\n")[|PREFIX|..] == s + "\n";
      assert ReadLine(kinds, values, line) == ReadUnset(kinds, values, s + "\n");
      UnsetTitle(kinds, values, s);
    }
  }

  lemma UnsetTitle(kinds: Kinds, values: Values, s: string)
    requires '\n' !in s
    ensures var k := Find(s, ' ');
            ReadUnset(kinds, values, s + "\n") ==
            if k < |s| && StartsWith(s[k + 1..], NOT_SET) && s[..k] in kinds &&
               (kinds[s[..k]] == Boolean || kinds[s[..k]] == SymbolType.Tri)
            then values[s[..k] := Value.Tri(NO)] else values
  {
    NameOfTitle(s);
  }

  /** The reader finds the same name with the line end behind the title. */
  lemma NameOfTitle(s: string)
    requires '\n' !in s
    ensures var k := Find(s, ' ');
            if k < |s| then
              && Find(s + "\n", ' ') == k && (s + "\n")[..k] == s[..k]
              && (StartsWith((s + "\n")[k + 1..], NOT_SET) <==> StartsWith(s[k + 1..], NOT_SET))
            else Find(s + "\n", ' ') == |s + "\n"|
  {
    var k := Find(s, ' ');
    FindBefore(s, ' ', "\n");
    if k < |s| {
      assert (s + "\n")[k + 1..] == s[k + 1..] + "\n";
      StartsBefore(s[k + 1..], NOT_SET);
    }
  }

  lemma {:induction false} FindBefore(s: string, c: char, t: string)
    ensures Find(s + t, c) == if Find(s, c) < |s| then Find(s, c) else |s| + Find(t, c)
  {
    if s == "" {
      assert s + t == t;
    } else {
      assert (s + t)[1..] == s[1..] + t;
      if s[0] != c { FindBefore(s[1..], c, t); }
    }
  }

  /** A line end behind a text does not complete a prefix that has none. */
  lemma StartsBefore(s: string, prefix: string)
    requires '\n' !in prefix
    ensures StartsWith(s + "\n", prefix) <==> StartsWith(s, prefix)
  {
    var t := s + "\n";
    if |prefix| <= |s| {
      assert t[..|prefix|] == s[..|prefix|];
    } else if |prefix| == |t| {
      assert t[..|prefix|] == t && '\n' in t;
    }
  }

  lemma PrefixOfLine(text: string)
    ensures StartsWith(text + "\n", PREFIX) <==> StartsWith(text, PREFIX)
    ensures StartsWith(text, PREFIX) ==> (text + "\n")[|PREFIX|..] == text[|PREFIX|..] + "\n"
  {
    StartsBefore(text, PREFIX);
  }

  lemma HashLine(kinds: Kinds, values: Values)
    ensures ReadLine(kinds, values, "#\n") == values && ReadLine(kinds, values, "\n") == values
  {
    assert "#\n"[2..] == "";
  }

  lemma IgnoredLine(kinds: Kinds, values: Values, line: string, rest: string)
    requires '\n' !in line && ReadLine(kinds, values, line + "\n") == values
    ensures ReadFile(kinds, values, line + "\n" + rest) == ReadFile(kinds, values, rest)
  {
    assert (line + "\n")[..|line + "\n"| - 1] == line;
    ReadFirst(kinds, values, line + "\n", rest);
  }

  lemma TitleSkipped(kinds: Kinds, values: Values, text: string, rest: string)
    requires '\n' !in text
    ensures ReadFile(kinds, values, WriteTitle(text) + rest) ==
            ReadFile(kinds, ReadLine(kinds, values, "# " + text + "\n"), rest)
  {
    HashLine(kinds, values);
    var after := ReadLine(kinds, values, "# " + text + "\n");
    HashLine(kinds, after);
    var rest1 := "#" + "\n" + rest;
    var line := "# " + text;
    var rest2 := line + "\n" + rest1;
    var rest3 := "#" + "\n" + rest2;
    IgnoredLine(kinds, after, "#", rest);
    assert (line + "\n")[..|line + "\n"| - 1] == line;
    ReadFirst(kinds, values, line + "\n", rest1);
    IgnoredLine(kinds, values, "#", rest2);
    IgnoredLine(kinds, values, "", rest3);
    Regrouped(text, rest);
  }

  /** Writing a title has no effect on what is read exactly if the title is harmless. */
  lemma TitleIgnored(kinds: Kinds, text: string)
    requires '\n' !in text
    ensures Harmless(kinds, text) <==>
            forall values: Values, rest: string :: ReadFile(kinds, values, WriteTitle(text) + rest) == ReadFile(kinds, values, rest)
  {
    if Harmless(kinds, text) {
      forall values: Values, rest: string
        ensures ReadFile(kinds, values, WriteTitle(text) + rest) == ReadFile(kinds, values, rest)
      {
        TitleSkipped(kinds, values, text, rest);
        TitleLine(kinds, values, text);
      }
    } else {
      TitleSkipped(kinds, map[], text, "");
      TitleLine(kinds, map[], text);
      var name := text[|PREFIX|..][..Find(text[|PREFIX|..], ' ')];
      assert name in ReadFile(kinds, map[], WriteTitle(text) + "") && name !in ReadFile(kinds, map[], "");
    }
  }

  lemma Regrouped(text: string, rest: string)
    ensures WriteTitle(text) + rest == "" + "\n" + ("#" + "\n" + ("# " + text + "\n" + ("#" + "\n" + rest)))
  {
  }

  /** A text that does not break its line; a carriage return may only stand inside quotes. */
  predicate OneLine(kind: SymbolType, v: Value) {
    v.Text? ==> '\n' !in v.text && (kind == String || '\r' !in v.text)
  }

  /** The entries whose values the format can carry. */
  function Carried(kinds: Kinds, entries: seq<Entry>, modules: bool): seq<Entry>
    requires forall e :: e in entries && e.Entry? ==> e.name in kinds
  {
    if entries == [] then []
    else if entries[0].Entry? && Storable(kinds[entries[0].name], entries[0].value, modules) then
      [entries[0]] + Carried(kinds, entries[1..], modules)
    else Carried(kinds, entries[1..], modules)
  }

  /** Of a whole file, with titles between the symbols, exactly the values that the format can carry are read
      back; the others are refused. */
  lemma {:induction false} FileRoundTrip(kinds: Kinds, values: Values, entries: seq<Entry>, modules: bool)
    requires Proper(kinds, entries)
    requires forall e :: e in entries && e.Entry? ==> e.name !in values && OneLine(kinds[e.name], e.value)
    requires forall e :: e in entries && e.Entry? && e.value.Tri? ==> Storable(kinds[e.name], e.value, modules)
    requires forall e :: e in entries && e.Title? ==> Harmless(kinds, e.text)
    ensures ReadFile(kinds, values, WriteFile(kinds, entries, modules)) == ValuesOf(values, Carried(kinds, entries, modules))
    decreases |entries|
  {
    if entries != [] {
      var e := entries[0];
      assert e in entries && forall x :: x in entries[1..] ==> x in entries;
      var rest := WriteFile(kinds, entries[1..], modules);
      if e.Title? {
        TitleIgnored(kinds, e.text);
        FileRoundTrip(kinds, values, entries[1..], modules);
      } else if Storable(kinds[e.name], e.value, modules) {
        EntryRead(kinds, values, e.name, e.value, modules, rest);
        FileRoundTrip(kinds, values[e.name := e.value], entries[1..], modules);
        FirstCarried(values, e, Carried(kinds, entries[1..], modules));
      } else {
        EntryRefused(kinds, values, e.name, e.value, modules, rest);
        FileRoundTrip(kinds, values, entries[1..], modules);
      }
    }
  }

  lemma FirstCarried(values: Values, e: Entry, rest: seq<Entry>)
    requires e.Entry?
    ensures ValuesOf(values, [e] + rest) == ValuesOf(values[e.name := e.value], rest)
  {
    assert ([e] + rest)[1..] == rest;
  }

  lemma EntryRead(kinds: Kinds, values: Values, name: string, v: Value, modules: bool, rest: string)
    requires IsName(name) && name in kinds && name !in values && Storable(kinds[name], v, modules)
    ensures ReadFile(kinds, values, WriteLine(name, kinds[name], v, modules) + rest) ==
            ReadFile(kinds, values[name := v], rest)
  {
    if v.Text? && kinds[name] != String { NumberOneLine(v.text); }
    WrittenIsOneLine(name, kinds[name], v, modules);
    LineRoundTrip(kinds, values, name, v, modules);
    ReadFirst(kinds, values, WriteLine(name, kinds[name], v, modules), rest);
  }

  /** A text that is no number is refused for a number. */
  lemma EntryRefused(kinds: Kinds, values: Values, name: string, v: Value, modules: bool, rest: string)
    requires IsName(name) && name in kinds && Typed(kinds[name], v) && OneLine(kinds[name], v)
    requires v.Text? && !Storable(kinds[name], v, modules)
    ensures ReadFile(kinds, values, WriteLine(name, kinds[name], v, modules) + rest) == ReadFile(kinds, values, rest)
  {
    var line := WriteLine(name, kinds[name], v, modules);
    WrittenIsOneLine(name, kinds[name], v, modules);
    LineText(name, kinds[name], v, modules);
    TrimOneLine(v.text);
    ReadAssigned(kinds, values, name, v.text + "\n");
    ReadFirst(kinds, values, line, rest);
  }

  /** Nothing the reader stores has a line end in it, so a text with one never comes back. */
  lemma ReadLineOneLine(kinds: Kinds, values: Values, line: string, name: string)
    requires name in values && values[name].Text? ==> '\n' !in values[name].text
    ensures var r := ReadLine(kinds, values, line); name in r && r[name].Text? ==> '\n' !in r[name].text
  {
    forall kind, p ensures var v := SetValue(kind, TrimEnd(p)); v.Some? && v.value.Text? ==> '\n' !in v.value.text {
      if kind == String && TrimEnd(p) != "" { UnescapeWithin(TrimEnd(p)[1..], '\n'); }
    }
  }

  lemma {:induction false} UnescapeWithin(s: string, c: char)
    requires c !in s
    ensures Unescape(s).Some? ==> c !in Unescape(s).value
  {
    if s != "" {
      assert s[0] in s && forall x :: x in s[1..] ==> x in s;
      if s[0] != '"' && s[0] != '\\' {
        UnescapeWithin(s[1..], c);
      } else if s[0] == '\\' && |s| > 1 {
        assert s[1] in s && forall x :: x in s[2..] ==> x in s;
        UnescapeWithin(s[2..], c);
      }
    }
  }

  lemma {:induction false} ReadFileOneLine(kinds: Kinds, values: Values, text: string, name: string)
    requires name in values && values[name].Text? ==> '\n' !in values[name].text
    ensures var r := ReadFile(kinds, values, text); name in r && r[name].Text? ==> '\n' !in r[name].text
    decreases |text|
  {
    var k := Find(text, '\n');
    if text != "" {
      if k == |text| {
        ReadLineOneLine(kinds, values, text, name);
      } else {
        ReadLineOneLine(kinds, values, text[..k + 1], name);
        ReadFileOneLine(kinds, ReadLine(kinds, values, text[..k + 1]), text[k + 1..], name);
      }
    }
  }

  /** What is written for a symbol is read back exactly if the format can carry its value. */
  lemma SymbolRoundTrip(kinds: Kinds, values: Values, name: string, v: Value, modules: bool)
    requires IsName(name) && name in kinds && Typed(kinds[name], v) && name !in values
    ensures ReadFile(kinds, values, WriteLine(name, kinds[name], v, modules)) == values[name := v] <==>
            Storable(kinds[name], v, modules)
  {
    var line := WriteLine(name, kinds[name], v, modules);
    if v.Text? && '\n' in v.text {
      ReadFileOneLine(kinds, values, line, name);
      assert values[name := v][name] == v;
      if Storable(kinds[name], v, modules) { NumberOneLine(v.text); }
    } else {
      WrittenIsOneLine(name, kinds[name], v, modules);
      ReadFirst(kinds, values, line, "");
      assert line + "" == line;
      LineRoundTrip(kinds, values, name, v, modules);
    }
  }
}
