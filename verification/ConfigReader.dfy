/** The reader of configuration lines, which cuts the line buffer into pieces by writing
    terminators into it. */
module ConfigReader {
  import opened Expressions
  import opened ConfigText
  import opened ConfigBuffer

  /** `strchr`: the position found, or that of the terminator. */
  method FindChar(a: array<char>, p: nat, c: char, ghost s: string) returns (q: nat)
    requires IsText(a, p, s) && c != NUL
    ensures q == p + Find(s, c)
  {
    q := p;
    assert s[0..] == s;
    TextAt(a, p, s, 0);
    while a[q] != NUL && a[q] != c
      invariant p <= q <= p + |s| && Find(s, c) == q - p + Find(s[q - p..], c)
      decreases p + |s| - q
    {
      TextAt(a, p, s, q - p);
      assert s[q - p..][1..] == s[q + 1 - p..];
      q := q + 1;
    }
    TextAt(a, p, s, q - p);
  }

  /** `memcmp` and `strncmp` with a text without terminators. */
  method StartsAt(a: array<char>, p: nat, prefix: string, ghost s: string) returns (b: bool)
    requires IsText(a, p, s) && NUL !in prefix
    ensures b <==> StartsWith(s, prefix)
  {
    for i := 0 to |prefix|
      invariant i <= |s| && s[..i] == prefix[..i]
    {
      TextAt(a, p, s, i);
      assert prefix[i] in prefix;
      if a[p + i] != prefix[i] {
        assert i < |s| ==> s[i] != prefix[i];
        return false;
      }
    }
    assert prefix[..|prefix|] == prefix;
    b := true;
  }

  /** The string at p as a value. */
  method TextOf(a: array<char>, p: nat, ghost s: string) returns (t: string)
    requires IsText(a, p, s)
    ensures t == s
  {
    var n := Length(a, p, s);
    t := a[p..p + n];
  }

  /** Cutting the string at p at a character in it. */
  method Cut(a: array<char>, p: nat, q: nat, ghost s: string)
    requires IsText(a, p, s) && p <= q < p + |s|
    modifies a
    ensures IsText(a, p, s[..q - p]) && IsText(a, q + 1, s[q - p + 1..])
    ensures a[..p] == old(a[..p]) && a[q] == NUL
  {
    TextAt(a, p, s, q - p + 1);
    ghost var b := a[p..p + |s|];
    a[q] := NUL;
    assert a[p..q] == b[..q - p] && a[q + 1..p + |s|] == b[q - p + 1..];
  }

  function WithoutReturn(s: string): string {
    if s != "" && s[|s| - 1] == '\r' then s[..|s| - 1] else s
  }

  /** A carriage return at the end of the string becomes a terminator.  Without a string there
      is the terminator of the name in front of it. */
  method CutReturn(a: array<char>, p: nat, end: nat, ghost s: string)
    requires IsText(a, p, s) && end == p + |s| && p > 0 && a[p - 1] == NUL
    modifies a
    ensures IsText(a, p, WithoutReturn(s)) && a[..p] == old(a[..p])
  {
    var q := end - 1;
    if s != "" { TextAt(a, p, s, |s| - 1); }
    if a[q] == '\r' {
      Cut(a, p, q, s);
    }
  }

  lemma TrimEndCuts(s: string)
    ensures TrimEnd(s) == if Find(s, '\n') < |s| then WithoutReturn(s[..Find(s, '\n')]) else s
  {
    var t := s[..Find(s, '\n')];
    if t != "" { assert t[..|t| - 1] == s[..|t| - 1]; }
  }

  /** The end of the line and a carriage return before it become terminators. */
  method TrimEndInPlace(a: array<char>, p: nat, ghost s: string)
    requires IsText(a, p, s) && p > 0 && a[p - 1] == NUL
    modifies a
    ensures IsText(a, p, TrimEnd(s)) && a[..p] == old(a[..p])
  {
    var q := FindChar(a, p, '\n', s);
    TextAt(a, p, s, q - p);
    TrimEndCuts(s);
    if a[q] != NUL { CutLine(a, p, q, s); }
  }

  /** The terminator over the line end at q, and over a carriage return before it. */
  method CutLine(a: array<char>, p: nat, q: nat, ghost s: string)
    requires IsText(a, p, s) && p > 0 && a[p - 1] == NUL && p <= q < p + |s|
    modifies a
    ensures IsText(a, p, WithoutReturn(s[..q - p])) && a[..p] == old(a[..p])
  {
    ghost var before := a[..p];
    Cut(a, p, q, s);
    assert a[p - 1] == before[p - 1];
    CutReturn(a, p, q, s[..q - p]);
  }

  class Reader {
    const kinds: Kinds
    /** The user values of the symbols that have one. */
    var values: Values

    constructor (kinds: Kinds)
      ensures this.kinds == kinds && values == map[]
    {
      this.kinds, values := kinds, map[];
    }

    /** `conf_set_sym_val` on the text at p. */
    method SetSymbolValue(name: string, a: array<char>, p: nat, ghost s: string)
      requires name in kinds && IsText(a, p, s)
      modifies this, a
      ensures var v := SetValue(kinds[name], s);
              values == if v.Some? then old(values)[name := v.value] else old(values)
    {
      TextAt(a, p, s, 0);
      match kinds[name]
      case Unknown =>
      case String =>
        if a[p] == '"' {
          TextAt(a, p, s, 1);
          var ok := UnescapeInPlace(a, p + 1, s[1..]);
          if ok {
            var text := TextOf(a, p + 1, Unescape(s[1..]).value);
            values := values[name := Text(text)];
          }
        }
      case Int =>
        var text := TextOf(a, p, s);
        if ValidInt(text) { values := values[name := Text(text)]; }
      case Hex =>
        var text := TextOf(a, p, s);
        if ValidHex(text) { values := values[name := Text(text)]; }
      case Tri =>
        if a[p] == 'm' { values := values[name := Value.Tri(MOD)]; } else { SetBooleanValue(name, a, p, s); }
      case Boolean =>
        SetBooleanValue(name, a, p, s);
    }

    method SetBooleanValue(name: string, a: array<char>, p: nat, ghost s: string)
      requires IsText(a, p, s)
      modifies this
      ensures var v := SetBoolean(s);
              values == if v.Some? then old(values)[name := v.value] else old(values)
    {
      TextAt(a, p, s, 0);
      if a[p] == 'y' {
        values := values[name := Value.Tri(YES)];
      } else if a[p] == 'n' {
        values := values[name := Value.Tri(NO)];
      }
    }

    /** One line.  Behind a lone # at the end of the file, the prefix is looked for in what the buffer
        still holds there from an earlier line; stale is that text. */
    method ReadLine(a: array<char>, ghost line: string, ghost stale: string)
      requires IsText(a, 0, line) && (line == "#" ==> IsText(a, 2, stale))
      modifies this, a
      ensures line != "#" ==> values == ConfigText.ReadLine(kinds, old(values), line)
      ensures line == "#" ==> values == if StartsWith(stale, PREFIX)
                                        then ConfigText.ReadUnset(kinds, old(values), stale[|PREFIX|..]) else old(values)
    {
      TextAt(a, 0, line, 0);
      if a[0] == '#' {
        ghost var behind := if line == "#" then stale else line[2..];
        if line != "#" { TextAt(a, 0, line, 2); }
        var b := StartsAt(a, 2, PREFIX, behind);
        if b {
          TextAt(a, 2, behind, |PREFIX|);
          ReadUnset(a, 2 + |PREFIX|, behind[|PREFIX|..]);
        }
      } else {
        var b := StartsAt(a, 0, PREFIX, line);
        if b {
          TextAt(a, 0, line, |PREFIX|);
          ReadAssignment(a, |PREFIX|, line[|PREFIX|..]);
        }
      }
    }

    /** Behind "# CONFIG_". */
    method ReadUnset(a: array<char>, p: nat, ghost s: string)
      requires IsText(a, p, s)
      modifies this, a
      ensures values == ConfigText.ReadUnset(kinds, old(values), s)
    {
      var q := FindChar(a, p, ' ', s);
      TextAt(a, p, s, q - p);
      if a[q] == NUL { return; }
      Cut(a, p, q, s);
      Clear(a, p, q + 1, s[..q - p], s[q - p + 1..]);
    }

    /** The name at p and, at r, the text behind it. */
    method Clear(a: array<char>, p: nat, r: nat, ghost s: string, ghost tail: string)
      requires IsText(a, p, s) && IsText(a, r, tail)
      modifies this
      ensures values == if StartsWith(tail, NOT_SET) && s in kinds && (kinds[s] == Boolean || kinds[s] == SymbolType.Tri)
                        then old(values)[s := Value.Tri(NO)] else old(values)
    {
      var b := StartsAt(a, r, NOT_SET, tail);
      if !b { return; }
      var name := TextOf(a, p, s);
      if name in kinds && (kinds[name] == Boolean || kinds[name] == SymbolType.Tri) {
        values := values[name := Value.Tri(NO)];
      }
    }

    /** Behind "CONFIG_". */
    method ReadAssignment(a: array<char>, p: nat, ghost s: string)
      requires IsText(a, p, s)
      modifies this, a
      ensures values == ConfigText.ReadAssignment(kinds, old(values), s)
    {
      var q := FindChar(a, p, '=', s);
      TextAt(a, p, s, q - p);
      if a[q] == NUL { return; }
      Cut(a, p, q, s);
      var name := TextOf(a, p, s[..q - p]);
      Assign(name, a, q + 1, s[q - p + 1..]);
    }

    /** Behind "CONFIG_NAME=". */
    method Assign(name: string, a: array<char>, p: nat, ghost s: string)
      requires IsText(a, p, s) && p > 0 && a[p - 1] == NUL
      modifies this, a
      ensures values == var v := if name in kinds then SetValue(kinds[name], TrimEnd(s)) else None;
                        if v.Some? then old(values)[name := v.value] else old(values)
    {
      TrimEndInPlace(a, p, s);
      if name in kinds { SetSymbolValue(name, a, p, TrimEnd(s)); }
    }
  }
}
