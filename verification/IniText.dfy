// The string helpers of basic/config/config_parser.cpp: trimming, escaping, quoting.
module IniText {

  // What isspace accepts in the C locale, which is also the set trim removes.
  predicate IsSpace(c: char)
  {
    c == ' ' || c == '\t' || c == '\n' || c == '\r' || c == '\U{C}' || c == '\U{B}'
  }

  predicate AllSpace(s: string)
  {
    forall i :: 0 <= i < |s| ==> IsSpace(s[i])
  }

  // ---------- trim ----------

  function TrimLeft(s: string): string
  {
    if |s| > 0 && IsSpace(s[0]) then TrimLeft(s[1..]) else s
  }

  function TrimRight(s: string): string
  {
    if |s| > 0 && IsSpace(s[|s| - 1]) then TrimRight(s[..|s| - 1]) else s
  }

  function Trim(s: string): string
  {
    TrimRight(TrimLeft(s))
  }

  // No space at either end.
  predicate Tight(s: string)
  {
    |s| > 0 ==> !IsSpace(s[0]) && !IsSpace(s[|s| - 1])
  }

  lemma {:induction false} TrimLeftSkips(a: string, s: string)
    requires AllSpace(a)
    ensures TrimLeft(a + s) == TrimLeft(s)
    decreases |a|
  {
    if |a| == 0 {
      assert a + s == s;
    } else {
      assert (a + s)[1..] == a[1..] + s;
      TrimLeftSkips(a[1..], s);
    }
  }

  lemma {:induction false} TrimRightSkips(s: string, b: string)
    requires AllSpace(b)
    ensures TrimRight(s + b) == TrimRight(s)
    decreases |b|
  {
    if |b| == 0 {
      assert s + b == s;
    } else {
      assert (s + b)[..|s + b| - 1] == s + b[..|b| - 1];
      TrimRightSkips(s, b[..|b| - 1]);
    }
  }

  lemma {:induction false} TrimRightKeepsHead(s: string)
    requires |s| > 0 && !IsSpace(s[0])
    ensures |TrimRight(s)| > 0 && TrimRight(s)[0] == s[0]
    decreases |s|
  {
    if IsSpace(s[|s| - 1]) {
      TrimRightKeepsHead(s[..|s| - 1]);
    }
  }

  // trim removes exactly the surrounding space ...
  lemma TrimPadded(a: string, s: string, b: string)
    requires AllSpace(a) && AllSpace(b) && Tight(s)
    ensures Trim(a + s + b) == s
  {
    assert a + s + b == a + (s + b);
    TrimLeftSkips(a, s + b);
    if |s| == 0 {
      assert s + b == b && b + "" == b;
      TrimLeftSkips(b, "");
    } else {
      TrimRightSkips(s, b);
    }
  }

  lemma {:induction false} TrimLeftParts(s: string) returns (a: string)
    ensures AllSpace(a) && s == a + TrimLeft(s)
    ensures |TrimLeft(s)| > 0 ==> !IsSpace(TrimLeft(s)[0])
    decreases |s|
  {
    a := "";
    if |s| > 0 && IsSpace(s[0]) {
      a := TrimLeftParts(s[1..]);
      a := [s[0]] + a;
    }
  }

  lemma {:induction false} TrimRightParts(s: string) returns (b: string)
    ensures AllSpace(b) && s == TrimRight(s) + b
    ensures |TrimRight(s)| > 0 ==> !IsSpace(TrimRight(s)[|TrimRight(s)| - 1])
    decreases |s|
  {
    b := "";
    if |s| > 0 && IsSpace(s[|s| - 1]) {
      b := TrimRightParts(s[..|s| - 1]);
      b := b + [s[|s| - 1]];
    }
  }

  // ... and always leaves a string without any.
  lemma TrimParts(s: string) returns (a: string, b: string)
    ensures AllSpace(a) && AllSpace(b) && Tight(Trim(s)) && s == a + Trim(s) + b
  {
    a := TrimLeftParts(s);
    b := TrimRightParts(TrimLeft(s));
    assert TrimLeft(s) == Trim(s) + b;
  }

  lemma TightIsTrimmed(s: string)
    ensures Tight(s) <==> Trim(s) == s
  {
    if Tight(s) {
      TrimPadded("", s, "");
      assert "" + s + "" == s;
    } else {
      var a, b := TrimParts(s);
    }
  }

  // str.erase with find_first_not_of, then with find_last_not_of.
  method TrimString(str: string) returns (r: string)
    ensures r == Trim(str)
  {
    r := str;
    while |r| > 0 && IsSpace(r[0])
      invariant TrimLeft(r) == TrimLeft(str)
    {
      r := r[1..];
    }
    while |r| > 0 && IsSpace(r[|r| - 1])
      invariant TrimRight(r) == Trim(str)
    {
      r := r[..|r| - 1];
    }
  }

  // ---------- escape and unescape ----------

  function EscapeChar(c: char): string
  {
    if c == '\n' then "\\n"
    else if c == '\t' then "\\t"
    else if c == '\r' then "\\r"
    else if c == '\\' then "\\\\"
    else if c == '\"' then "\\\""
    else if c == '\'' then "\\'"
    else [c]
  }

  function Escape(s: string): string
  {
    if |s| == 0 then "" else EscapeChar(s[0]) + Escape(s[1..])
  }

  predicate Escapable(c: char)
  {
    c == 'n' || c == 't' || c == 'r' || c == '\\' || c == '\"' || c == '\''
  }

  function UnescapeChar(c: char): char
  {
    if c == 'n' then '\n' else if c == 't' then '\t' else if c == 'r' then '\r' else c
  }

  function Unescape(s: string): string
  {
    if |s| == 0 then ""
    else if s[0] == '\\' && |s| > 1 && Escapable(s[1]) then [UnescapeChar(s[1])] + Unescape(s[2..])
    else [s[0]] + Unescape(s[1..])
  }

  lemma UnescapeOne(c: char, rest: string)
    ensures Unescape(EscapeChar(c) + rest) == [c] + Unescape(rest)
  {
    var e := EscapeChar(c);
    assert (e + rest)[|e|..] == rest;
    assert (e + rest)[0] == e[0];
    if |e| == 2 {
      assert (e + rest)[1] == e[1];
    }
  }

  lemma Regroup(a: string, b: string, c: string)
    ensures (a + b) + c == a + (b + c)
  {
  }

  // Escaped text comes back unchanged whatever follows it: it never swallows
  // the next character.
  lemma {:induction false} UnescapeEscape(s: string, t: string)
    ensures Unescape(Escape(s) + t) == s + Unescape(t)
    decreases |s|
  {
    if |s| == 0 {
      assert Escape(s) + t == t && s + Unescape(t) == Unescape(t);
    } else {
      var rest := Escape(s[1..]);
      UnescapeEscape(s[1..], t);
      UnescapeOne(s[0], rest + t);
      Regroup(EscapeChar(s[0]), rest, t);
      Regroup([s[0]], s[1..], Unescape(t));
      assert s == [s[0]] + s[1..];
    }
  }

  lemma {:induction false} EscapeHasNoNewline(s: string)
    ensures '\n' !in Escape(s)
    decreases |s|
  {
    if |s| > 0 {
      EscapeHasNoNewline(s[1..]);
    }
  }

  lemma {:induction false} UnescapePlain(s: string)
    requires '\\' !in s
    ensures Unescape(s) == s
    decreases |s|
  {
    if |s| > 0 {
      UnescapePlain(s[1..]);
    }
  }

  method EscapeString(str: string) returns (result: string)
    ensures result == Escape(str)
  {
    result := "";
    for i := 0 to |str|
      invariant result + Escape(str[i..]) == Escape(str)
    {
      assert str[i..][1..] == str[i + 1..];
      Regroup(result, EscapeChar(str[i]), Escape(str[i + 1..]));
      result := result + EscapeChar(str[i]);
    }
  }

  method UnescapeString(str: string) returns (result: string)
    ensures result == Unescape(str)
  {
    result := "";
    var i := 0;
    while i < |str|
      invariant 0 <= i <= |str|
      invariant result + Unescape(str[i..]) == Unescape(str)
    {
      assert str[i..][1..] == str[i + 1..];
      if str[i] == '\\' && i + 1 < |str| && Escapable(str[i + 1]) {
        assert str[i..][2..] == str[i + 2..];
        result := result + [UnescapeChar(str[i + 1])];
        i := i + 1;
      } else {
        result := result + [str[i]];
      }
      i := i + 1;
    }
  }

  // ---------- quoting ----------

  predicate NeedsQuote(c: char)
  {
    IsSpace(c) || c == '\"' || c == '\'' || c == '\\'
  }

  predicate NeedsQuotes(s: string)
  {
    exists i :: 0 <= i < |s| && NeedsQuote(s[i])
  }

  function AddQuotes(s: string): string
  {
    if NeedsQuotes(s) then "\"" + Escape(s) + "\"" else s
  }

  function TrimQuotes(s: string): string
  {
    if |s| >= 2 && ((s[0] == '\"' && s[|s| - 1] == '\"') || (s[0] == '\'' && s[|s| - 1] == '\'')) then s[1..|s| - 1]
    else s
  }

  method AddQuotesIfNeeded(str: string) returns (r: string)
    ensures r == AddQuotes(str)
  {
    var needsQuotes := false;
    for i := 0 to |str|
      invariant !needsQuotes && forall k :: 0 <= k < i ==> !NeedsQuote(str[k])
    {
      if NeedsQuote(str[i]) {
        needsQuotes := true;
        break;
      }
    }
    if needsQuotes {
      var e := EscapeString(str);
      return "\"" + e + "\"";
    }
    return str;
  }

  // The printed value has no space at its ends and no raw newline.
  lemma QuotedIsTight(v: string)
    ensures Tight(AddQuotes(v)) && '\n' !in AddQuotes(v)
  {
    EscapeHasNoNewline(v);
    if !NeedsQuotes(v) {
      forall i | 0 <= i < |v|
        ensures !IsSpace(v[i])
      {
        assert !NeedsQuote(v[i]);
      }
    }
  }

  // What dump prints for a value is what parse reads back, for every string.
  lemma ValueRoundTrip(v: string)
    ensures TrimQuotes(Unescape(Trim(AddQuotes(v)))) == v
  {
    QuotedIsTight(v);
    TightIsTrimmed(AddQuotes(v));
    if NeedsQuotes(v) {
      assert "\"" + Escape(v) + "\"" == "\"" + (Escape(v) + "\"");
      assert ("\"" + (Escape(v) + "\""))[1..] == Escape(v) + "\"";
      UnescapeEscape(v, "\"");
      assert Unescape("\"") == "\"";
      assert Unescape(AddQuotes(v)) == "\"" + (v + "\"");
      assert ("\"" + (v + "\""))[1..|v| + 1] == v;
    } else {
      assert forall i :: 0 <= i < |v| ==> !NeedsQuote(v[i]);
      UnescapePlain(v);
    }
  }

  // ---------- The tables, character by character ----------

  lemma SpaceTable(c: char)
    ensures IsSpace(c) <==> c in [' ', '\t', '\n', '\r', '\U{C}', '\U{B}']
  {
  }

  // Six characters are escaped, all others print as themselves.
  lemma EscapeTable(c: char, t: string)
    ensures Escape("\n" + t) == "\\n" + Escape(t)
    ensures Escape("\t" + t) == "\\t" + Escape(t)
    ensures Escape("\r" + t) == "\\r" + Escape(t)
    ensures Escape("\\" + t) == "\\\\" + Escape(t)
    ensures Escape("\"" + t) == "\\\"" + Escape(t)
    ensures Escape("'" + t) == "\\'" + Escape(t)
    ensures c !in "\n\t\r\\\"'" ==> Escape([c] + t) == [c] + Escape(t)
  {
    EscapeHead('\n', t);
    EscapeHead('\t', t);
    EscapeHead('\r', t);
    EscapeHead('\\', t);
    EscapeHead('\"', t);
    EscapeHead('\'', t);
    EscapeHead(c, t);
    assert forall k :: k in "\n\t\r\\\"'" <==>
             k == '\n' || k == '\t' || k == '\r' || k == '\\' || k == '\"' || k == '\'';
  }

  lemma EscapeHead(c: char, t: string)
    ensures Escape([c] + t) == EscapeChar(c) + Escape(t)
  {
    assert ([c] + t)[1..] == t;
  }

  // The six escapes are undone; a backslash in front of any other character, or
  // at the end, stays, and so does everything else.
  lemma UnescapeTable(c: char, t: string)
    ensures Unescape("\\n" + t) == "\n" + Unescape(t)
    ensures Unescape("\\t" + t) == "\t" + Unescape(t)
    ensures Unescape("\\r" + t) == "\r" + Unescape(t)
    ensures Unescape("\\\\" + t) == "\\" + Unescape(t)
    ensures Unescape("\\\"" + t) == "\"" + Unescape(t)
    ensures Unescape("\\'" + t) == "'" + Unescape(t)
    ensures c !in "ntr\\\"'" ==> Unescape("\\" + [c] + t) == "\\" + Unescape([c] + t)
    ensures Unescape("\\") == "\\"
    ensures c != '\\' ==> Unescape([c] + t) == [c] + Unescape(t)
  {
    UnescapeHead('n', t);
    UnescapeHead('t', t);
    UnescapeHead('r', t);
    UnescapeHead('\\', t);
    UnescapeHead('\"', t);
    UnescapeHead('\'', t);
    UnescapeHead(c, t);
    assert ([c] + t)[1..] == t;
    assert forall k :: k in "ntr\\\"'" <==>
             k == 'n' || k == 't' || k == 'r' || k == '\\' || k == '\"' || k == '\'';
  }

  lemma UnescapeHead(c: char, t: string)
    ensures Unescape("\\" + [c] + t) ==
              if Escapable(c) then [UnescapeChar(c)] + Unescape(t) else "\\" + Unescape([c] + t)
  {
    var s := "\\" + [c] + t;
    assert s[2..] == t && s[1..] == [c] + t;
  }

  // One pair of equal quotes around a text is taken off, and nothing else.
  lemma QuotesTable(t: string)
    ensures TrimQuotes("\"" + t + "\"") == t && TrimQuotes("'" + t + "'") == t
    ensures TrimQuotes(t) == t <==>
              |t| < 2 || t[0] != t[|t| - 1] || (t[0] != '\"' && t[0] != '\'')
  {
    assert ("\"" + t + "\"")[1..|t| + 1] == t;
    assert ("'" + t + "'")[1..|t| + 1] == t;
  }

  // A value is printed without quotes exactly if it has no space, quote or backslash.
  lemma QuotedExactly(v: string)
    ensures AddQuotes(v) == v <==>
              forall i :: 0 <= i < |v| ==> !IsSpace(v[i]) && v[i] != '\"' && v[i] != '\'' && v[i] != '\\'
  {
    EscapeGrows(v);
    if NeedsQuotes(v) {
      var i :| 0 <= i < |v| && NeedsQuote(v[i]);
    }
    assert forall i :: 0 <= i < |v| ==>
             (NeedsQuote(v[i]) <==> IsSpace(v[i]) || v[i] == '\"' || v[i] == '\'' || v[i] == '\\');
  }

  lemma {:induction false} EscapeGrows(s: string)
    ensures |Escape(s)| >= |s|
    decreases |s|
  {
    if |s| > 0 {
      EscapeGrows(s[1..]);
    }
  }
}
