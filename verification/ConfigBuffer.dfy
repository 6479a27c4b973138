/** The writer's escape buffer and the reader's line buffer, both worked on in place.  A C string
    is the part of an array from a position to the first terminator. */
module ConfigBuffer {
  import opened Expressions
  import opened ConfigText

  ghost predicate IsText(a: array<char>, p: nat, s: string)
    reads a
  {
    p + |s| < a.Length && a[p..p + |s|] == s && a[p + |s|] == NUL && NUL !in s
  }

  /** `strcspn(s, "\"\\")` */
  function Span(s: string): (k: nat)
    ensures k <= |s|
  {
    if s == "" || IsSpecial(s[0]) then 0 else 1 + Span(s[1..])
  }

  lemma {:induction false} SpanEscape(s: string)
    ensures Specials(s) == Specials(s[Span(s)..])
    ensures Escape(s) == s[..Span(s)] + Escape(s[Span(s)..])
    ensures Span(s) < |s| ==> IsSpecial(s[Span(s)])
  {
    if s != "" && !IsSpecial(s[0]) {
      var t := s[1..];
      var k := Span(t);
      SpanEscape(t);
      assert s[k + 1..] == t[k..];
      assert s[..k + 1] == [s[0]] + t[..k];
    } else {
      assert s[0..] == s;
    }
  }

  lemma {:induction false} SpanUnescape(s: string)
    ensures Unescape(s) == Prepend(s[..Span(s)], Unescape(s[Span(s)..]))
    ensures Span(s) < |s| ==> IsSpecial(s[Span(s)])
  {
    if s != "" && !IsSpecial(s[0]) {
      var t := s[1..];
      var k := Span(t);
      SpanUnescape(t);
      assert s[k + 1..] == t[k..];
      PrependTwice([s[0]], t[..k], Unescape(t[k..]));
      assert s[..k + 1] == [s[0]] + t[..k];
    } else {
      assert s[0..] == s;
      if Unescape(s).Some? { assert "" + Unescape(s).value == Unescape(s).value; }
    }
  }

  lemma PrependTwice(s: string, t: string, u: Option<string>)
    ensures Prepend(s, Prepend(t, u)) == Prepend(s + t, u)
  {
    if u.Some? { assert s + (t + u.value) == s + t + u.value; }
  }

  /** `strlen` */
  method Length(a: array<char>, p: nat, ghost s: string) returns (n: nat)
    requires IsText(a, p, s)
    ensures n == |s|
  {
    n := 0;
    while a[p + n] != NUL
      invariant 0 <= n <= |s|
      decreases |s| - n
    {
      TextAt(a, p, s, n);
      n := n + 1;
    }
    if n < |s| { TextAt(a, p, s, n); }
  }

  lemma TextAt(a: array<char>, p: nat, s: string, k: nat)
    requires IsText(a, p, s) && k <= |s|
    ensures k < |s| ==> a[p + k] == s[k] && s[k] != NUL
    ensures k == |s| ==> a[p + k] == NUL
    ensures IsText(a, p + k, s[k..])
  {
    if k < |s| {
      assert a[p + k] == a[p..p + |s|][k];
      assert s[k] in s;
    }
    assert a[p + k..p + |s|] == a[p..p + |s|][k..];
  }

  // ---------------------------------------------------------------- escaping

  /** `strncat(res, src, l)` for the l characters src. */
  method Append(res: array<char>, src: string, ghost text: string)
    requires IsText(res, 0, text) && NUL !in src && |text| + |src| < res.Length
    modifies res
    ensures IsText(res, 0, text + src)
  {
    var n := Length(res, 0, text);
    for i := 0 to |src|
      invariant res[..|text| + i] == text + src[..i]
    {
      res[n + i] := src[i];
      assert src[..i + 1] == src[..i] + [src[i]];
    }
    res[n + |src|] := NUL;
    assert src[..|src|] == src;
  }

  /** The first loop of `sym_escape_string_value`. */
  method EscapedLength(input: string) returns (reslen: nat)
    requires NUL !in input
    ensures reslen == |"\"" + Escape(input) + "\""| + 1
  {
    reslen := |input| + 3;
    var p := 0;
    assert input[0..] == input;
    while true
      invariant 0 <= p <= |input|
      invariant reslen + Specials(input[p..]) == |input| + 3 + Specials(input)
      decreases |input| - p
    {
      var l := Span(input[p..]);
      SpanEscape(input[p..]);
      assert input[p..][l..] == input[p + l..];
      p := p + l;
      if p == |input| { break; }
      assert input[p..][0] == input[p] && input[p..][1..] == input[p + 1..];
      reslen, p := reslen + 1, p + 1;
    }
    EscapeFacts(input);
  }

  /** `sym_escape_string_value`: the computed length is exactly enough. */
  method EscapeStringValue(input: string) returns (res: array<char>)
    requires NUL !in input
    ensures fresh(res) && res[..] == "\"" + Escape(input) + "\"" + [NUL]
  {
    var reslen := EscapedLength(input);
    res := new char[reslen];
    res[0] := NUL;
    Append(res, "\"", "");
    var p := 0;
    ghost var text := "\"";
    assert "" + "\"" == text && input[0..] == input;
    while true
      invariant 0 <= p <= |input| && IsText(res, 0, text) && res.Length == reslen
      invariant text + Escape(input[p..]) == "\"" + Escape(input)
      decreases |input| - p
    {
      p, text := CopyPlain(res, input, p, text);
      if p == |input| { break; }
      p, text := CopySpecial(res, input, p, text);
    }
    assert Escape(input[p..]) == "";
    Append(res, "\"", text);
    text := text + "\"";
    assert res[..] == res[..|text|] + [res[|text|]];
  }

  /** The characters up to the next special one. */
  method CopyPlain(res: array<char>, input: string, p: nat, ghost text: string) returns (q: nat, ghost next: string)
    requires p <= |input| && IsText(res, 0, text) && NUL !in input
    requires |text| + |Escape(input[p..])| < res.Length
    modifies res
    ensures p <= q <= |input| && IsText(res, 0, next)
    ensures next + Escape(input[q..]) == text + Escape(input[p..])
    ensures q < |input| ==> IsSpecial(input[q])
  {
    var l := Span(input[p..]);
    SpanEscape(input[p..]);
    assert input[p..][..l] == input[p..p + l] && input[p..][l..] == input[p + l..];
    Append(res, input[p..p + l], text);
    q, next := p + l, text + input[p..p + l];
  }

  /** A special character after a backslash. */
  method CopySpecial(res: array<char>, input: string, p: nat, ghost text: string) returns (q: nat, ghost next: string)
    requires p < |input| && IsSpecial(input[p]) && IsText(res, 0, text) && NUL !in input
    requires |text| + |Escape(input[p..])| < res.Length
    modifies res
    ensures q == p + 1 && IsText(res, 0, next)
    ensures next + Escape(input[q..]) == text + Escape(input[p..])
  {
    assert input[p..][0] == input[p] && input[p..][1..] == input[p + 1..];
    assert Escape(input[p..]) == ['\\', input[p]] + Escape(input[p + 1..]);
    Append(res, "\\", text);
    Append(res, [input[p]], text + "\\");
    q, next := p + 1, text + "\\" + [input[p]];
  }

  // ---------------------------------------------------------------- unescaping in place

  /** `strpbrk(p, "\"\\")`: the position found, or that of the terminator. */
  method FindSpecial(a: array<char>, p: nat, ghost s: string) returns (q: nat)
    requires IsText(a, p, s)
    ensures q == p + Span(s)
  {
    q := p;
    assert s[0..] == s;
    TextAt(a, p, s, 0);
    while a[q] != NUL && !IsSpecial(a[q])
      invariant p <= q <= p + |s| && Span(s) == q - p + Span(s[q - p..])
      decreases p + |s| - q
    {
      TextAt(a, p, s, q - p);
      assert s[q - p..][1..] == s[q + 1 - p..];
      q := q + 1;
    }
    TextAt(a, p, s, q - p);
  }

  /** `memmove(q, q + 1, strlen(q))`: the string at q loses its first character. */
  method DropFirst(a: array<char>, q: nat, ghost s: string)
    requires IsText(a, q, s) && s != ""
    modifies a
    ensures IsText(a, q, s[1..])
    ensures a[..q] == old(a[..q]) && a[q + |s|] == NUL
  {
    var n := Length(a, q, s);
    ghost var b := a[..];
    assert a[..] == Moved(b, q, 0);
    for i := 0 to n
      invariant a[..] == Moved(b, q, i)
    {
      MovedNext(b, q, i);
      a[q + i] := a[..][q + i + 1];
    }
    TextMoved(a, q, s, b);
  }

  /** b after the i characters behind position q have moved down by one. */
  function Moved(b: string, q: nat, i: nat): (r: string)
    requires q + i < |b|
    ensures |r| == |b|
  {
    b[..q] + b[q + 1..q + i + 1] + b[q + i..]
  }

  lemma MovedNext(b: string, q: nat, i: nat)
    requires q + i + 1 < |b|
    ensures Moved(b, q, i + 1) == Moved(b, q, i)[q + i := Moved(b, q, i)[q + i + 1]]
  {
  }

  lemma TextMoved(a: array<char>, q: nat, s: string, b: string)
    requires s != "" && NUL !in s && q + |s| < |b| && b[q..q + |s|] == s && b[q + |s|] == NUL
    requires a[..] == Moved(b, q, |s|)
    ensures IsText(a, q, s[1..]) && a[..q] == b[..q] && a[q + |s|] == NUL
  {
    forall k | 0 <= k < |s| - 1 ensures a[q + k] == s[1..][k] {
      assert a[q + k] == a[..][q + k] == b[q + k + 1] == b[q..q + |s|][k + 1];
    }
    assert a[q..q + |s| - 1] == s[1..];
    assert a[q + |s| - 1] == a[..][q + |s| - 1] && a[q + |s|] == a[..][q + |s|];
    assert a[..q] == a[..][..q];
    assert forall c :: c in s[1..] ==> c in s;
  }

  /** The backslash at q goes; the character after it stays at q. */
  method DropBackslash(a: array<char>, q: nat, ghost s: string) returns (ghost rest: string)
    requires IsText(a, q, s) && First(s) == '\\'
    modifies a
    ensures IsText(a, q + 1, rest) && a[..q] == old(a[..q]) && |rest| < |s|
    ensures Unescape(s) == Prepend([a[q]], Unescape(rest))
    ensures Unescape(rest).Some? ==> a[q] != NUL
  {
    DropFirst(a, q, s);
    if |s| == 1 {
      rest := "";
    } else {
      rest := s[2..];
      assert s[1..][1..] == s[2..];
      TextAt(a, q, s[1..], 0);
      TextAt(a, q, s[1..], 1);
    }
  }

  lemma TextJoin(a: array<char>, p: nat, q: nat, done: string, s: string)
    requires p <= q <= a.Length && a[p..q] == done && NUL !in done && IsText(a, q, s)
    ensures IsText(a, p, done + s)
  {
    assert a[p..q + |s|] == a[p..q] + a[q..q + |s|];
  }

  /** The plain characters before the next special one. */
  method SkipPlain(a: array<char>, q: nat, ghost s: string) returns (next: nat)
    requires IsText(a, q, s)
    ensures next == q + Span(s) && a[q..next] == s[..Span(s)] && NUL !in s[..Span(s)]
    ensures IsText(a, next, s[Span(s)..]) && a[next] == First(s[Span(s)..])
    ensures a[next] == NUL || IsSpecial(a[next])
  {
    ghost var k := Span(s);
    SpanUnescape(s);
    next := FindSpecial(a, q, s);
    TextAt(a, q, s, k);
    assert a[q..next] == a[q..q + |s|][..k];
  }

  /** One round of the loop: up to the closing quote, or over one backslash and the character
      behind it, after which the rest is at r. */
  method UnescapeStep(a: array<char>, q: nat, ghost s: string)
    returns (over: Option<bool>, r: nat, ghost done: string, ghost rest: string)
    requires IsText(a, q, s)
    modifies a
    ensures a[..q] == old(a[..q])
    ensures over == Some(false) ==> Unescape(s) == None
    ensures over == Some(true) ==> Unescape(s) == Some(done) && IsText(a, q, done)
    ensures over == None ==>
              && q < r && IsText(a, r, rest) && |rest| < |s| && a[q..r] == done
              && Unescape(s) == Prepend(done, Unescape(rest)) && (Unescape(rest).Some? ==> NUL !in done)
  {
    SpanUnescape(s);
    var next := SkipPlain(a, q, s);
    done, rest, r := s[..Span(s)], s[Span(s)..], next;
    if a[next] == NUL { return Some(false), r, done, rest; }
    if a[next] == '"' {
      a[next] := NUL;
      assert done + "" == done;
      return Some(true), r, done, rest;
    }
    done, rest := PassBackslash(a, q, next, done, rest);
    r := next + 1;
    over := None;
  }

  method PassBackslash(a: array<char>, q: nat, next: nat, ghost done: string, ghost s: string)
    returns (ghost newDone: string, ghost rest: string)
    requires q <= next && IsText(a, next, s) && First(s) == '\\' && a[q..next] == done && NUL !in done
    modifies a
    ensures a[..q] == old(a[..q]) && IsText(a, next + 1, rest) && |rest| < |s| && a[q..next + 1] == newDone
    ensures Prepend(done, Unescape(s)) == Prepend(newDone, Unescape(rest))
    ensures Unescape(rest).Some? ==> NUL !in newDone
  {
    ghost var left := a[..next];
    rest := DropBackslash(a, next, s);
    PrependTwice(done, [a[next]], Unescape(rest));
    assert a[q..next] == left[q..] && a[..q] == left[..q];
    newDone := done + [a[next]];
  }

  /** The loop of `conf_set_sym_val` over the text after the opening quote: characters are moved
      down over the backslashes, and the closing quote becomes the terminator. */
  method UnescapeInPlace(a: array<char>, p: nat, ghost s: string) returns (ok: bool)
    requires IsText(a, p, s)
    modifies a
    ensures ok == Unescape(s).Some? && (ok ==> IsText(a, p, Unescape(s).value))
    ensures a[..p] == old(a[..p])
  {
    var q := p;
    ghost var rest, done := s, "";
    if Unescape(s).Some? { assert "" + Unescape(s).value == Unescape(s).value; }
    while true
      invariant p <= q && IsText(a, q, rest) && a[..p] == old(a[..p]) && a[p..q] == done
      invariant Unescape(s) == Prepend(done, Unescape(rest))
      invariant Unescape(rest).Some? ==> NUL !in done
      decreases |rest|
    {
      ghost var left := a[..q];
      var over, r, part, tail := UnescapeStep(a, q, rest);
      assert a[..p] == left[..p] && a[p..q] == left[p..] == done;
      if over.Some? {
        if over.value { TextJoin(a, p, q, done, part); }
        return over.value;
      }
      PrependTwice(done, part, Unescape(tail));
      assert a[p..r] == a[p..q] + a[q..r];
      q, done, rest := r, done + part, tail;
    }
  }
}
