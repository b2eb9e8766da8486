// The INI printer and parser of basic/config/config_parser.cpp, with its default
// options: "=" between key and value, "\n" between lines.
module IniParser {
  import opened IniText
  import opened Wrappers

  // The alternatives of ConfigNode::value_type. Int stands for the integer types
  // that config_node_value_to_string prints, Silent for those it does not.
  datatype Scalar = Str(s: string) | Bool(b: bool) | Int(i: int) | Char(c: char) | Silent

  datatype ConfigNode =
    | Value(v: Scalar)
    | Object(fields: map<string, ConfigNode>)
    | Array(elems: seq<ConfigNode>)

  // ConfigNode()
  const FRESH := Value(Str(""))

  function Digits(n: nat): string
  {
    if n < 10 then ["0123456789"[n]] else Digits(n / 10) + ["0123456789"[n % 10]]
  }

  // config_node_value_to_string
  function Render(v: Scalar): string
  {
    match v
    case Str(s) => s
    case Bool(b) => if b then "true" else "false"
    case Int(i) => if i < 0 then "-" + Digits(-i) else Digits(i)
    case Char(c) => [c]
    case Silent => ""
  }

  // ---------- What the text of a value means ----------

  predicate IsDigit(c: char)
  {
    '0' <= c <= '9'
  }

  predicate AllDigits(t: string)
  {
    forall i :: 0 <= i < |t| ==> IsDigit(t[i])
  }

  function DigitValue(c: char): nat
    requires IsDigit(c)
  {
    c as int - '0' as int
  }

  // A decimal number read from its most significant digit on, behind what has
  // been read so far.
  function ReadOn(sofar: nat, t: string): nat
    requires AllDigits(t)
    decreases |t|
  {
    if |t| == 0 then sofar else ReadOn(10 * sofar + DigitValue(t[0]), t[1..])
  }

  function ReadNat(t: string): nat
    requires AllDigits(t)
  {
    ReadOn(0, t)
  }

  predicate IsInteger(t: string)
  {
    |t| > 0 && (if t[0] == '-' then |t| > 1 && AllDigits(t[1..]) else AllDigits(t))
  }

  function ReadInt(t: string): int
    requires IsInteger(t)
  {
    if t[0] == '-' then -(ReadNat(t[1..]) as int) else ReadNat(t)
  }

  lemma {:induction false} ReadOneMore(sofar: nat, t: string, c: char)
    requires AllDigits(t) && IsDigit(c)
    ensures AllDigits(t + [c]) && ReadOn(sofar, t + [c]) == 10 * ReadOn(sofar, t) + DigitValue(c)
    decreases |t|
  {
    if |t| == 0 {
      assert t + [c] == [c] && [c][1..] == "";
      assert ReadOn(10 * sofar + DigitValue(c), "") == 10 * sofar + DigitValue(c);
    } else {
      ReadOneMore(10 * sofar + DigitValue(t[0]), t[1..], c);
      assert (t + [c])[1..] == t[1..] + [c];
    }
  }

  // Digits writes a number in decimal, without leading zeros.
  lemma {:induction false} DigitsRead(n: nat)
    ensures |Digits(n)| > 0 && AllDigits(Digits(n)) && ReadNat(Digits(n)) == n
    ensures n > 0 ==> Digits(n)[0] != '0'
    decreases n
  {
    var c := "0123456789"[n % 10];
    assert IsDigit(c) && DigitValue(c) == n % 10;
    if n < 10 {
      assert Digits(n) == [c] && [c][1..] == "";
      assert ReadOn(0, [c]) == ReadOn(DigitValue(c), "");
    } else {
      DigitsRead(n / 10);
      ReadOneMore(0, Digits(n / 10), c);
    }
  }

  // The text says what the value is: an integer reads back as itself, with a
  // sign exactly if it is negative and no leading zero; a boolean is one of two
  // words; a string and a character are themselves.
  predicate Says(t: string, v: Scalar)
  {
    match v
    case Str(s) => t == s
    case Int(i) => IsInteger(t) && ReadInt(t) == i && (t[0] == '-' <==> i < 0) && (t[0] == '0' ==> t == "0")
    case Bool(b) => t == (if b then "true" else "false")
    case Char(c) => t == [c]
    case Silent => t == ""
  }

  lemma RenderSays(v: Scalar)
    ensures Says(Render(v), v)
  {
    if v.Int? {
      DigitsRead(if v.i < 0 then -v.i else v.i);
      if v.i < 0 {
        assert Render(v)[1..] == Digits(-v.i);
      } else {
        assert IsDigit(Render(v)[0]);
      }
    }
  }

  // ---------- operator[] ----------

  // The members a node has once operator[] has turned it into an object.
  function Fields(n: ConfigNode): map<string, ConfigNode>
  {
    if n.Object? then n.fields else map[]
  }

  function SetField(n: ConfigNode, key: string, child: ConfigNode): ConfigNode
  {
    Object(Fields(n)[key := child])
  }

  function Field(n: ConfigNode, key: string): ConfigNode
  {
    if key in Fields(n) then Fields(n)[key] else FRESH
  }

  // root[section][key] = child
  function Put(root: ConfigNode, section: string, key: string, child: ConfigNode): ConfigNode
  {
    SetField(root, section, SetField(Field(root, section), key, child))
  }

  // root[section][key] = child stores child there and changes no other member.
  // A root or a section that was no object becomes one, and loses what it was.
  lemma PutExactly(root: ConfigNode, section: string, key: string, child: ConfigNode)
    ensures var r := Put(root, section, key, child);
            r.Object? && Field(r, section).Object? && Field(Field(r, section), key) == child &&
            r.fields.Keys == (if root.Object? then root.fields.Keys else {}) + {section} &&
            Field(r, section).fields.Keys ==
              (if root.Object? && section in root.fields && root.fields[section].Object?
               then root.fields[section].fields.Keys else {}) + {key} &&
            (forall s :: s in r.fields && s != section ==> root.Object? && r.fields[s] == root.fields[s]) &&
            (forall k :: k in Field(r, section).fields && k != key ==>
               root.Object? && section in root.fields && root.fields[section].Object? &&
               Field(r, section).fields[k] == root.fields[section].fields[k])
  {
  }

  // ---------- parse ----------

  // The tree built so far and current_section.
  datatype State = State(root: ConfigNode, section: string)

  // str.find(c), or the length
  function Find(s: string, c: char): (i: nat)
    ensures i <= |s|
    ensures i < |s| ==> s[i] == c
    ensures c !in s[..i]
  {
    if |s| == 0 || s[0] == c then 0
    else
      var i := 1 + Find(s[1..], c);
      assert s[..i] == [s[0]] + s[1..][..i - 1];
      i
  }

  function ParseTrimmed(st: State, line: string): State
  {
    if |line| == 0 || line[0] == ';' || line[0] == '#' then st
    else if line[0] == '[' && line[|line| - 1] == ']' then
      var section := Trim(line[1..|line| - 1]);
      State(SetField(st.root, section, FRESH), section)
    else if |st.section| == 0 || '=' !in line then st
    else
      var pos := Find(line, '=');
      var key := Trim(line[..pos]);
      var value := TrimQuotes(Unescape(Trim(line[pos + 1..])));
      st.(root := Put(st.root, st.section, key, Value(Str(value))))
  }

  function ParseLine(st: State, line: string): State
  {
    ParseTrimmed(st, Trim(line))
  }

  // getline until the stream is empty
  function ParseText(data: string, st: State): State
    decreases |data|
  {
    if |data| == 0 then st
    else
      var k := Find(data, '\n');
      if k == |data| then ParseLine(st, data)
      else ParseText(data[k + 1..], ParseLine(st, data[..k]))
  }

  method Parse(data: string, root: ConfigNode) returns (r: ConfigNode)
    ensures r == ParseText(data, State(root, "")).root
  {
    var stream, section := data, "";
    r := root;
    while |stream| > 0
      invariant ParseText(stream, State(r, section)) == ParseText(data, State(root, ""))
      decreases |stream|
    {
      var k := Find(stream, '\n');
      ghost var st := ParseLine(State(r, section), stream[..k]);
      assert k == |stream| ==> stream[..k] == stream;
      var line := TrimString(stream[..k]);
      stream := if k < |stream| then stream[k + 1..] else "";
      if |line| == 0 || line[0] == ';' || line[0] == '#' {
        continue;
      }
      if line[0] == '[' && line[|line| - 1] == ']' {
        section := TrimString(line[1..|line| - 1]);
        r := SetField(r, section, FRESH);
        continue;
      }
      if |section| == 0 || '=' !in line {
        continue;
      }
      var pos := Find(line, '=');
      var key := TrimString(line[..pos]);
      var text := TrimString(line[pos + 1..]);
      text := UnescapeString(text);
      r := Put(r, section, key, Value(Str(TrimQuotes(text))));
    }
  }

  // ---------- dump ----------

  ghost predicate HasKey<V>(es: seq<(string, V)>, k: string)
  {
    exists i :: 0 <= i < |es| && es[i].0 == k
  }

  lemma HasKeyAppend<V>(es: seq<(string, V)>, e: (string, V), k: string)
    ensures HasKey(es + [e], k) <==> HasKey(es, k) || e.0 == k
  {
    var t := es + [e];
    if HasKey(es, k) {
      var i :| 0 <= i < |es| && es[i].0 == k;
      assert t[i].0 == k;
    } else if e.0 == k {
      assert t[|es|].0 == k;
    }
  }

  // One enumeration of a map, as an iterator over an unordered_map yields it.
  ghost predicate Enumerates<V>(es: seq<(string, V)>, m: map<string, V>)
  {
    (forall i, j :: 0 <= i < j < |es| ==> es[i].0 != es[j].0) &&
    (forall i :: 0 <= i < |es| ==> es[i].0 in m && m[es[i].0] == es[i].1) &&
    (forall k :: k in m ==> HasKey(es, k))
  }

  function EntryLine(key: string, text: string): string
  {
    key + " = " + AddQuotes(text)
  }

  // Nested objects and arrays are skipped.
  function EntryText(e: (string, ConfigNode)): string
  {
    if e.1.Value? then EntryLine(e.0, Render(e.1.v)) + "\n" else ""
  }

  function EntriesText(es: seq<(string, ConfigNode)>): string
  {
    if |es| == 0 then "" else EntryText(es[0]) + EntriesText(es[1..])
  }

  function SectionHead(name: string): string
  {
    "[" + name + "]" + "\n"
  }

  function SectionText(name: string, es: seq<(string, ConfigNode)>): string
  {
    SectionHead(name) + EntriesText(es) + "\n"
  }

  type Order = seq<(string, seq<(string, ConfigNode)>)>

  function DocText(order: Order): string
  {
    if |order| == 0 then "" else SectionText(order[0].0, order[0].1) + DocText(order[1..])
  }

  // order lists the sections of a document and the entries of each in some order.
  ghost predicate EnumeratesDoc(order: Order, m: map<string, ConfigNode>)
  {
    (forall i, j :: 0 <= i < j < |order| ==> order[i].0 != order[j].0) &&
    (forall i :: 0 <= i < |order| ==>
       order[i].0 in m && m[order[i].0].Object? && Enumerates(order[i].1, m[order[i].0].fields)) &&
    (forall k :: k in m ==> HasKey(order, k))
  }

  // The enumeration so far: distinct keys, each with its value.
  ghost predicate Listed<V>(es: seq<(string, V)>, m: map<string, V>, left: set<string>)
  {
    (forall i, j :: 0 <= i < j < |es| ==> es[i].0 != es[j].0) &&
    (forall i :: 0 <= i < |es| ==> es[i].0 in m && es[i].0 !in left && m[es[i].0] == es[i].1) &&
    (forall k :: k in m ==> k in left || HasKey(es, k))
  }

  lemma ListedMore<V>(es: seq<(string, V)>, m: map<string, V>, left: set<string>, k: string)
    requires Listed(es, m, left) && left <= m.Keys && k in left
    ensures Listed(es + [(k, m[k])], m, left - {k})
  {
    var e := (k, m[k]);
    forall q | q in m
      ensures q in left - {k} || HasKey(es + [e], q)
    {
      HasKeyAppend(es, e, q);
    }
  }

  // Every dump lists every section and every entry once, in an order of its own.
  // None stands for the exception thrown for a section that is not an object.
  method Dump(root: ConfigNode) returns (r: Option<string>, ghost order: Order)
    ensures root.Value? ==> r == Some(Render(root.v)) && Says(r.value, root.v)
    ensures root.Array? ==> r == Some("")
    ensures root.Object? ==> (r.None? <==> exists k :: k in root.fields && !root.fields[k].Object?)
    ensures root.Object? && r.Some? ==> EnumeratesDoc(order, root.fields) && r.value == DocText(order)
  {
    order := [];
    if root.Value? {
      RenderSays(root.v);
      return Some(Render(root.v)), [];
    }
    if root.Array? {
      return Some(""), [];
    }
    var result, left := "", root.fields.Keys;
    while left != {}
      invariant left <= root.fields.Keys
      invariant DocListed(order, root.fields, left)
      invariant result == DocText(order)
    {
      var section :| section in left;
      if !root.fields[section].Object? {
        return None, [];
      }
      var text, es := DumpEntries(root.fields[section].fields);
      DocTextAppend(order, section, es);
      DocListedMore(order, root.fields, left, section, es);
      result := result + (SectionHead(section) + text + "\n");
      order := order + [(section, es)];
      left := left - {section};
    }
    forall k | k in root.fields
      ensures root.fields[k].Object?
    {
      assert HasKey(order, k);
    }
    r := Some(result);
  }

  ghost predicate DocListed(order: Order, m: map<string, ConfigNode>, left: set<string>)
  {
    (forall i, j :: 0 <= i < j < |order| ==> order[i].0 != order[j].0) &&
    (forall i :: 0 <= i < |order| ==>
       order[i].0 in m && order[i].0 !in left && m[order[i].0].Object? &&
       Enumerates(order[i].1, m[order[i].0].fields)) &&
    (forall k :: k in m ==> k in left || HasKey(order, k))
  }

  lemma DocListedMore(order: Order, m: map<string, ConfigNode>, left: set<string>, k: string,
                      es: seq<(string, ConfigNode)>)
    requires DocListed(order, m, left) && left <= m.Keys && k in left
    requires m[k].Object? && Enumerates(es, m[k].fields)
    ensures DocListed(order + [(k, es)], m, left - {k})
  {
    var e := (k, es);
    forall q | q in m
      ensures q in left - {k} || HasKey(order + [e], q)
    {
      HasKeyAppend(order, e, q);
    }
  }

  method DumpEntries(m: map<string, ConfigNode>) returns (text: string, ghost es: seq<(string, ConfigNode)>)
    ensures Enumerates(es, m) && text == EntriesText(es)
  {
    es, text := [], "";
    var left := m.Keys;
    while left != {}
      invariant left <= m.Keys && Listed(es, m, left)
      invariant text == EntriesText(es)
    {
      var key :| key in left;
      EntriesTextAppend(es, key, m[key]);
      ListedMore(es, m, left, key);
      if m[key].Value? {
        var quoted := AddQuotesIfNeeded(Render(m[key].v));
        text := text + (key + " = " + quoted + "\n");
      }
      es := es + [(key, m[key])];
      left := left - {key};
    }
  }

  lemma {:induction false} EntriesTextAppend(es: seq<(string, ConfigNode)>, key: string, n: ConfigNode)
    ensures EntriesText(es + [(key, n)]) == EntriesText(es) + EntryText((key, n))
    decreases |es|
  {
    var last := (key, n);
    if |es| == 0 {
      assert es + [last] == [last] && [last][1..] == [];
      assert EntriesText([last]) == EntryText(last) + EntriesText([last][1..]);
    } else {
      EntriesTextAppend(es[1..], key, n);
      assert (es + [last])[1..] == es[1..] + [last];
      ConcatAssoc(EntryText(es[0]), EntriesText(es[1..]), EntryText(last));
    }
  }

  lemma ConcatAssoc(a: string, b: string, c: string)
    ensures a + (b + c) == (a + b) + c
  {
  }

  lemma {:induction false} DocTextAppend(order: Order, name: string, es: seq<(string, ConfigNode)>)
    ensures DocText(order + [(name, es)]) == DocText(order) + SectionText(name, es)
    decreases |order|
  {
    var last := (name, es);
    if |order| == 0 {
      assert order + [last] == [last] && [last][1..] == [];
      assert DocText([last]) == SectionText(name, es) + DocText([last][1..]);
    } else {
      DocTextAppend(order[1..], name, es);
      assert (order + [last])[1..] == order[1..] + [last];
      ConcatAssoc(SectionText(order[0].0, order[0].1), DocText(order[1..]), SectionText(name, es));
    }
  }

  // ---------- One line ----------

  lemma {:induction false} FindFirst(a: string, c: char, b: string)
    requires c !in a
    ensures Find(a + [c] + b, c) == |a|
    decreases |a|
  {
    var s := a + [c] + b;
    if |a| > 0 {
      FindFirst(a[1..], c, b);
      assert s[1..] == a[1..] + [c] + b;
    }
  }

  // What a printed entry has in front of its "=" and behind it, once trimmed.
  function Before(key: string): string
  {
    if |key| == 0 then "" else key + " "
  }

  function Behind(text: string): string
  {
    if |AddQuotes(text)| == 0 then "" else " " + AddQuotes(text)
  }

  lemma BeforeTrims(key: string)
    requires Tight(key)
    ensures Trim(Before(key)) == key
  {
    var a := if |key| == 0 then "" else " ";
    TrimPadded("", key, a);
    assert Before(key) == "" + key + a;
  }

  lemma BehindTrims(text: string)
    ensures Trim(Behind(text)) == AddQuotes(text)
  {
    var q := AddQuotes(text);
    var b := if |q| == 0 then "" else " ";
    QuotedIsTight(text);
    TrimPadded(b, q, "");
    assert Behind(text) == b + q + "";
  }

  lemma ShapeEnds(key: string, text: string)
    ensures var line := Before(key) + "=" + Behind(text);
            line[0] == (if |key| == 0 then '=' else key[0]) &&
            line[|line| - 1] == if |AddQuotes(text)| == 0 then '=' else AddQuotes(text)[|AddQuotes(text)| - 1]
  {
  }

  lemma EntryPads(key: string, text: string)
    ensures EntryLine(key, text) ==
              (if |key| == 0 then " " else "") + (Before(key) + "=" + Behind(text)) +
              (if |AddQuotes(text)| == 0 then " " else "")
  {
    var q := AddQuotes(text);
    if |key| == 0 && |q| == 0 {
      assert key == "" && q == "";
    } else if |key| == 0 {
      assert key == "";
    } else if |q| == 0 {
      assert q == "";
    }
  }

  lemma EntryShape(key: string, text: string)
    requires Tight(key)
    ensures Trim(EntryLine(key, text)) == Before(key) + "=" + Behind(text)
  {
    var line := Before(key) + "=" + Behind(text);
    var a, b := if |key| == 0 then " " else "", if |AddQuotes(text)| == 0 then " " else "";
    QuotedIsTight(text);
    ShapeEnds(key, text);
    EntryPads(key, text);
    TrimPadded(a, line, b);
  }

  // What parse can make of the text before a line's first "=": no space at its
  // ends, no "=", no line end, and nothing that starts a comment.
  predicate KeyShaped(key: string)
  {
    Tight(key) && '=' !in key && '\n' !in key && (|key| > 0 ==> key[0] != ';' && key[0] != '#')
  }

  // A printed entry that parse takes for a section header.
  predicate HeaderLike(key: string, text: string)
  {
    |key| > 0 && key[0] == '[' && |AddQuotes(text)| > 0 && AddQuotes(text)[|AddQuotes(text)| - 1] == ']'
  }

  // A key that parse cannot misread in front of this value.
  predicate KeyOk(key: string, text: string)
  {
    KeyShaped(key) && !HeaderLike(key, text)
  }

  // A line with "=" that is neither comment nor header stores what is around its first "=".
  lemma ShapeParses(st: State, pre: string, post: string)
    requires '=' !in pre && |st.section| > 0
    requires var line := pre + "=" + post;
             line[0] != ';' && line[0] != '#' && !(line[0] == '[' && line[|line| - 1] == ']')
    ensures ParseTrimmed(st, pre + "=" + post) ==
              st.(root := Put(st.root, st.section, Trim(pre), Value(Str(TrimQuotes(Unescape(Trim(post)))))))
  {
    var line := pre + "=" + post;
    FindFirst(pre, '=', post);
    assert line[..|pre|] == pre && line[|pre| + 1..] == post;
    assert line[|pre|] == '=';
  }

  // A printed entry is read back as the same key with the same text.
  lemma EntryParses(st: State, key: string, text: string)
    requires KeyOk(key, text) && |st.section| > 0
    ensures ParseLine(st, EntryLine(key, text)) == st.(root := Put(st.root, st.section, key, Value(Str(text))))
  {
    EntryShape(key, text);
    ShapeEnds(key, text);
    BeforeTrims(key);
    BehindTrims(text);
    ShapeParses(st, Before(key), Behind(text));
    ValueRoundTrip(text);
    QuotedIsTight(text);
    TightIsTrimmed(AddQuotes(text));
  }

  // A header line opens the section named inside the brackets, without the space around it.
  lemma HeaderParses(st: State, name: string)
    ensures ParseLine(st, "[" + name + "]") == State(SetField(st.root, Trim(name), FRESH), Trim(name))
  {
    var line := "[" + name + "]";
    assert Tight(line);
    TightIsTrimmed(line);
    assert line[1..|line| - 1] == name;
  }

  // ---------- What parse makes of lines that dump would not print ----------

  lemma SpaceTrimmed(a: string)
    requires AllSpace(a)
    ensures Trim(a) == ""
  {
    TrimPadded(a, "", "");
    assert a + "" + "" == a;
  }

  // Blank lines and comments change nothing.
  lemma CommentIgnored(st: State, pad: string, c: char, rest: string)
    requires AllSpace(pad) && (c == ';' || c == '#')
    ensures ParseLine(st, pad) == st
    ensures ParseLine(st, pad + [c] + rest) == st
  {
    SpaceTrimmed(pad);
    assert pad + [c] + rest == pad + ([c] + rest);
    TrimLeftSkips(pad, [c] + rest);
    TrimRightKeepsHead([c] + rest);
  }

  // So does a line that is no header if it has no delimiter, or no section is open.
  lemma StrayIgnored(st: State, line: string)
    requires var l := Trim(line); |l| > 0 ==> !(l[0] == '[' && l[|l| - 1] == ']')
    requires '=' !in line || st.section == ""
    ensures ParseLine(st, line) == st
  {
    if '=' !in line {
      TrimKeepsOut(line, '=');
    }
  }

  // A header may have space around its brackets.
  lemma PaddedHeaderParses(st: State, a: string, name: string, b: string)
    requires AllSpace(a) && AllSpace(b)
    ensures ParseLine(st, a + ("[" + name + "]") + b) == State(SetField(st.root, Trim(name), FRESH), Trim(name))
  {
    HeaderParses(st, name);
    TrimPadded(a, "[" + name + "]", b);
    TightIsTrimmed("[" + name + "]");
  }

  lemma EntryPartsTrim(key: string, b: string, c: string, text: string)
    requires AllSpace(b) && AllSpace(c) && Tight(key) && Tight(text)
    ensures Trim(key + b) == key && Trim(c + text) == text
  {
    TrimPadded("", key, b);
    assert "" + key + b == key + b;
    TrimPadded(c, text, "");
    assert c + text + "" == c + text;
  }

  lemma AllSpaceHasNo(b: string, x: char)
    requires AllSpace(b) && !IsSpace(x)
    ensures x !in b
  {
  }

  // An entry may have any space around its key and its value. The value loses
  // its escapes and then one pair of quotes around it.
  lemma PaddedEntryParses(st: State, a: string, key: string, b: string, c: string, text: string, d: string)
    requires |st.section| > 0 && AllSpace(a) && AllSpace(b) && AllSpace(c) && AllSpace(d)
    requires Tight(key) && Tight(text) && '=' !in key && |key| > 0 && |text| > 0
    requires key[0] != ';' && key[0] != '#' && !(key[0] == '[' && text[|text| - 1] == ']')
    ensures ParseLine(st, a + (key + b + "=" + (c + text)) + d) ==
              st.(root := Put(st.root, st.section, key, Value(Str(TrimQuotes(Unescape(text))))))
  {
    var pre, post := key + b, c + text;
    EntryPartsTrim(key, b, c, text);
    AllSpaceHasNo(b, '=');
    assert '=' !in pre;
    PaddedShapeParses(st, a, pre, post, d);
  }

  lemma PaddedShapeParses(st: State, a: string, pre: string, post: string, d: string)
    requires |st.section| > 0 && AllSpace(a) && AllSpace(d) && '=' !in pre && |pre| > 0 && |post| > 0
    requires !IsSpace(pre[0]) && !IsSpace(post[|post| - 1])
    requires pre[0] != ';' && pre[0] != '#' && !(pre[0] == '[' && post[|post| - 1] == ']')
    ensures ParseLine(st, a + (pre + "=" + post) + d) ==
              st.(root := Put(st.root, st.section, Trim(pre), Value(Str(TrimQuotes(Unescape(Trim(post)))))))
  {
    TrimPadded(a, pre + "=" + post, d);
    ShapeParses(st, pre, post);
  }

  // The last line needs no line end.
  lemma LastLineParses(st: State, line: string)
    requires '\n' !in line
    ensures ParseText(line, st) == if line == "" then st else ParseLine(st, line)
  {
  }

  lemma OneSection(name: string, e: (string, ConfigNode))
    ensures DocText([(name, [e])]) == "[" + name + "]\n" + EntryText(e) + "\n"
  {
    assert [e][1..] == [] && [(name, [e])][1..] == [];
    assert EntriesText([e]) == EntryText(e) + EntriesText([]);
    assert DocText([(name, [e])]) == SectionText(name, [e]) + DocText([]);
    assert "]" + "\n" == "]\n";
  }

  lemma SampleEntry()
    ensures EntryText(("k", Value(Int(42)))) == "k = 42\n"
  {
    assert Digits(4) == "4" && Render(Int(42)) == "42";
    QuotedExactly("42");
  }

  // The text of a small document, character by character.
  lemma SampleText()
    ensures DocText([("s", [("k", Value(Int(42)))])]) == "[s]\nk = 42\n\n"
  {
    OneSection("s", ("k", Value(Int(42))));
    SampleEntry();
  }

  // ---------- What parse can make of any text ----------

  lemma TrimKeepsOut(t: string, c: char)
    requires c !in t
    ensures c !in Trim(t)
  {
    var a, b := TrimParts(t);
    assert forall i :: 0 <= i < |Trim(t)| ==> Trim(t)[i] == t[|a| + i];
  }

  // A key that a line adds is shaped like one.
  lemma LineAddsShaped(st: State, line: string, name: string, key: string)
    requires '\n' !in line && key in Fields(Field(ParseLine(st, line).root, name))
    ensures key in Fields(Field(st.root, name)) || KeyShaped(key)
  {
    var l := Trim(line);
    TrimKeepsOut(line, '\n');
    if '=' in l {
      var pos := Find(l, '=');
      TrimKeepsOut(l[..pos], '=');
      TrimKeepsOut(l[..pos], '\n');
      var a, b := TrimParts(l[..pos]);
      var _, _ := TrimParts(line);
    }
  }

  // So is a section that a line opens, and the section without a name stays empty.
  lemma LineAddsSections(st: State, line: string)
    requires '\n' !in line && Tight(st.section) && '\n' !in st.section
    ensures var t := ParseLine(st, line);
            Tight(t.section) && '\n' !in t.section && (Field(st.root, "") == FRESH ==> Field(t.root, "") == FRESH) &&
            forall name :: name in Fields(t.root) ==> name in Fields(st.root) || (Tight(name) && '\n' !in name)
  {
    var l := Trim(line);
    TrimKeepsOut(line, '\n');
    if |l| > 0 && l[0] == '[' && l[|l| - 1] == ']' {
      TrimKeepsOut(l[1..|l| - 1], '\n');
      var a, b := TrimParts(l[1..|l| - 1]);
    }
  }

  lemma {:induction false} TextAddsShaped(data: string, st: State, name: string, key: string)
    requires key in Fields(Field(ParseText(data, st).root, name))
    ensures key in Fields(Field(st.root, name)) || KeyShaped(key)
    decreases |data|
  {
    if |data| > 0 {
      var k := Find(data, '\n');
      assert k == |data| ==> data[..k] == data;
      var t := ParseLine(st, data[..k]);
      if k < |data| {
        TextAddsShaped(data[k + 1..], t, name, key);
      }
      if key in Fields(Field(t.root, name)) {
        LineAddsShaped(st, data[..k], name, key);
      }
    }
  }

  lemma {:induction false} TextAddsSections(data: string, st: State)
    requires Tight(st.section) && '\n' !in st.section && Field(st.root, "") == FRESH
    ensures var r := ParseText(data, st).root;
            Field(r, "") == FRESH &&
            forall name :: name in Fields(r) ==> name in Fields(st.root) || (Tight(name) && '\n' !in name)
    decreases |data|
  {
    if |data| > 0 {
      var k := Find(data, '\n');
      assert k == |data| ==> data[..k] == data;
      LineAddsSections(st, data[..k]);
      if k < |data| {
        TextAddsSections(data[k + 1..], ParseLine(st, data[..k]));
      }
    }
  }

  // ---------- Text ----------

  lemma LineParses(line: string, rest: string, st: State)
    requires '\n' !in line
    ensures ParseText(line + "\n" + rest, st) == ParseText(rest, ParseLine(st, line))
  {
    var data := line + "\n" + rest;
    FindFirst(line, '\n', rest);
    assert data[..|line|] == line && data[|line| + 1..] == rest;
  }

  lemma EntryHasNoNewline(key: string, text: string)
    requires '\n' !in key
    ensures '\n' !in EntryLine(key, text)
  {
    QuotedIsTight(text);
  }

  // A printed entry that looks like a header opens a section instead.
  lemma HeaderLikeParses(st: State, key: string, text: string) returns (name: string)
    requires KeyShaped(key) && HeaderLike(key, text)
    ensures ParseLine(st, EntryLine(key, text)) == State(SetField(st.root, name, FRESH), name)
  {
    EntryShape(key, text);
    ShapeEnds(key, text);
    var line := Trim(EntryLine(key, text));
    name := Trim(line[1..|line| - 1]);
  }

  // An entry of a new key reaches its section if and only if the key is one
  // that parse cannot misread in front of this value. Then it is read back
  // with its text, and parsing goes on with whatever follows it.
  lemma EntryStoredExactly(st: State, key: string, text: string)
    requires |st.section| > 0 && key !in Fields(Field(st.root, st.section))
    ensures key in Fields(Field(ParseText(EntryLine(key, text) + "\n", st).root, st.section)) <==> KeyOk(key, text)
    ensures KeyOk(key, text) <==>
              forall rest :: ParseText(EntryLine(key, text) + "\n" + rest, st) ==
                             ParseText(rest, st.(root := Put(st.root, st.section, key, Value(Str(text)))))
  {
    var line, put := EntryLine(key, text), st.(root := Put(st.root, st.section, key, Value(Str(text))));
    assert line + "\n" + "" == line + "\n";
    if KeyOk(key, text) {
      EntryParses(st, key, text);
      EntryHasNoNewline(key, text);
      forall rest
        ensures ParseText(line + "\n" + rest, st) == ParseText(rest, put)
      {
        LineParses(line, rest, st);
      }
      assert ParseText(line + "\n" + "", st) == ParseText("", put);
    } else if key in Fields(Field(ParseText(line + "\n", st).root, st.section)) {
      TextAddsShaped(line + "\n", st, st.section, key);
      EntryHasNoNewline(key, text);
      LineParses(line, "", st);
      var name := HeaderLikeParses(st, key, text);
    } else {
      assert ParseText(line + "\n" + "", st) != ParseText("", put);
    }
  }

  // For example, a key of two lines comes back as its second line.
  lemma TwoLineKeyLosesFirst(st: State, first: string, key: string, text: string)
    requires |st.section| > 0 && KeyOk(key, text)
    requires Tight(first) && '=' !in first && '\n' !in first && (|first| > 0 ==> first[0] != '[')
    ensures ParseText(EntryLine(first + "\n" + key, text) + "\n", st) ==
              st.(root := Put(st.root, st.section, key, Value(Str(text))))
  {
    var line := EntryLine(key, text);
    assert EntryLine(first + "\n" + key, text) + "\n" == first + "\n" + (line + "\n" + "");
    TightIsTrimmed(first);
    LineParses(first, line + "\n" + "", st);
    EntryHasNoNewline(key, text);
    LineParses(line, "", st);
    EntryParses(st, key, text);
  }

  // The entries of one section that dump prints and parse can read.
  ghost predicate EntriesOk(es: seq<(string, ConfigNode)>)
  {
    forall i :: 0 <= i < |es| && es[i].1.Value? ==> KeyOk(es[i].0, Render(es[i].1.v))
  }

  ghost predicate NoneOf(es: seq<(string, ConfigNode)>)
  {
    forall i :: 0 <= i < |es| ==> !es[i].1.Value?
  }

  // The members those entries make: every value as the string it prints as.
  function Members(es: seq<(string, ConfigNode)>): map<string, ConfigNode>
  {
    if |es| == 0 then map[]
    else
      (if es[0].1.Value? then map[es[0].0 := Value(Str(Render(es[0].1.v)))] else map[]) + Members(es[1..])
  }

  // Adding members to a section; a section without any keeps what it is.
  function Merge(root: ConfigNode, section: string, m: map<string, ConfigNode>): ConfigNode
  {
    if m == map[] then root else SetField(root, section, Object(Fields(Field(root, section)) + m))
  }

  lemma PutThenMerge(root: ConfigNode, section: string, key: string, child: ConfigNode, m: map<string, ConfigNode>)
    ensures Merge(Put(root, section, key, child), section, m) == Merge(root, section, map[key := child] + m)
  {
    var f := Fields(Field(root, section));
    assert key in map[key := child] + m;
    assert f[key := child] + m == f + (map[key := child] + m);
    if m == map[] {
      assert map[key := child] + m == map[key := child];
      assert f + map[key := child] == f[key := child];
    } else {
      assert Fields(Put(root, section, key, child))[section := Object(f[key := child] + m)] ==
             Fields(root)[section := Object(f[key := child] + m)];
    }
  }

  lemma {:induction false} EntriesParse(st: State, es: seq<(string, ConfigNode)>, rest: string)
    requires EntriesOk(es) && (|st.section| > 0 || NoneOf(es))
    ensures ParseText(EntriesText(es) + rest, st) ==
              ParseText(rest, st.(root := Merge(st.root, st.section, Members(es))))
    decreases |es|
  {
    if |es| == 0 {
      assert EntriesText(es) + rest == rest;
    } else {
      var (key, n) := es[0];
      var tail := EntriesText(es[1..]) + rest;
      ConcatAssoc(EntryText(es[0]), EntriesText(es[1..]), rest);
      if n.Value? {
        var line, text := EntryLine(key, Render(n.v)), Render(n.v);
        var child := Value(Str(text));
        var st' := st.(root := Put(st.root, st.section, key, child));
        EntryHasNoNewline(key, text);
        EntryParses(st, key, text);
        LineParses(line, tail, st);
        EntriesParse(st', es[1..], rest);
        PutThenMerge(st.root, st.section, key, child, Members(es[1..]));
      } else {
        assert EntryText(es[0]) + tail == tail;
        EntriesParse(st, es[1..], rest);
        assert Members(es) == Members(es[1..]);
      }
    }
  }

  ghost predicate SectionOk(name: string, es: seq<(string, ConfigNode)>)
  {
    Tight(name) && '\n' !in name && EntriesOk(es) && (|name| > 0 || NoneOf(es))
  }

  // A node that was fresh before members were put into it one by one.
  function Filled(m: map<string, ConfigNode>): ConfigNode
  {
    if m == map[] then FRESH else Object(m)
  }

  lemma MergeIntoFresh(root: ConfigNode, name: string, m: map<string, ConfigNode>)
    ensures Merge(SetField(root, name, FRESH), name, m) == SetField(root, name, Filled(m))
  {
    var inner := SetField(root, name, FRESH);
    assert Fields(Field(inner, name)) == map[];
    assert map[] + m == m;
    assert Fields(inner)[name := Object(m)] == Fields(root)[name := Object(m)];
  }

  lemma SectionSplits(name: string, es: seq<(string, ConfigNode)>, rest: string)
    ensures SectionText(name, es) + rest == ("[" + name + "]") + "\n" + (EntriesText(es) + ("" + "\n" + rest))
  {
    var h, b := SectionHead(name), EntriesText(es);
    ConcatAssoc(h + b, "\n", rest);
    ConcatAssoc(h, b, "\n" + rest);
    assert "" + "\n" == "\n";
  }

  // A printed section is read back as an object with exactly its members, or
  // as an empty string if it has none.
  lemma SectionParses(st: State, name: string, es: seq<(string, ConfigNode)>, rest: string)
    requires SectionOk(name, es)
    ensures ParseText(SectionText(name, es) + rest, st) ==
              ParseText(rest, State(SetField(st.root, name, Filled(Members(es))), name))
  {
    var header, body, blank := "[" + name + "]", EntriesText(es), "" + "\n" + rest;
    var inside := State(SetField(st.root, name, FRESH), name);
    var closed := State(SetField(st.root, name, Filled(Members(es))), name);
    calc {
      ParseText(SectionText(name, es) + rest, st);
    ==  { SectionSplits(name, es, rest); }
      ParseText(header + "\n" + (body + blank), st);
    ==  { LineParses(header, body + blank, st); }
      ParseText(body + blank, ParseLine(st, header));
    ==  { HeaderParses(st, name); TightIsTrimmed(name); }
      ParseText(body + blank, inside);
    ==  { EntriesParse(inside, es, blank); }
      ParseText(blank, inside.(root := Merge(inside.root, name, Members(es))));
    ==  { MergeIntoFresh(st.root, name, Members(es)); }
      ParseText(blank, closed);
    ==  { LineParses("", rest, closed); }
      ParseText(rest, closed);
    }
  }

  // ---------- The round trip ----------

  // What a document becomes: nested objects and arrays are gone, values are strings.
  function Normal(m: map<string, ConfigNode>): map<string, ConfigNode>
  {
    map k | k in m && m[k].Value? :: Value(Str(Render(m[k].v)))
  }

  function NormalDoc(m: map<string, ConfigNode>): map<string, ConfigNode>
  {
    map k | k in m :: Filled(Normal(Fields(m[k])))
  }

  // Sections a caller may print and expect to read back. The section without a
  // name may hold nothing that is printed.
  ghost predicate DocOk(m: map<string, ConfigNode>)
  {
    forall k :: k in m ==> Tight(k) && '\n' !in k && m[k].Object? && FieldsOk(k, m[k].fields)
  }

  ghost predicate FieldsOk(name: string, fields: map<string, ConfigNode>)
  {
    (name == "" ==> Normal(fields) == map[]) &&
    forall q :: q in Normal(fields) ==> KeyOk(q, Render(fields[q].v))
  }

  lemma {:induction false} MembersAre(es: seq<(string, ConfigNode)>, k: string)
    requires forall i, j :: 0 <= i < j < |es| ==> es[i].0 != es[j].0
    ensures k in Members(es) <==> exists i :: 0 <= i < |es| && es[i].0 == k && es[i].1.Value?
    ensures forall i :: 0 <= i < |es| && es[i].0 == k && es[i].1.Value? ==>
              k in Members(es) && Members(es)[k] == Value(Str(Render(es[i].1.v)))
    decreases |es|
  {
    if |es| > 0 {
      var t := es[1..];
      MembersAre(t, k);
      forall i | 0 <= i < |es| && es[i].0 == k && es[i].1.Value?
        ensures k in Members(es) && Members(es)[k] == Value(Str(Render(es[i].1.v)))
      {
        if i > 0 {
          assert t[i - 1] == es[i];
        } else {
          assert forall j :: 0 <= j < |t| ==> t[j].0 == es[j + 1].0 != k;
        }
      }
    }
  }

  // The members do not depend on the order of the enumeration.
  lemma MembersOfEnumeration(es: seq<(string, ConfigNode)>, m: map<string, ConfigNode>)
    requires Enumerates(es, m)
    ensures Members(es) == Normal(m)
  {
    forall k: string
      ensures k in Members(es) <==> k in Normal(m)
      ensures k in Members(es) && k in Normal(m) ==> Members(es)[k] == Normal(m)[k]
    {
      MembersAre(es, k);
      if k in m {
        assert HasKey(es, k);
        var i :| 0 <= i < |es| && es[i].0 == k;
      }
    }
  }

  // The sections of an enumeration, later ones over earlier ones.
  function Sections(order: Order): map<string, ConfigNode>
  {
    if |order| == 0 then map[] else map[order[0].0 := Filled(Members(order[0].1))] + Sections(order[1..])
  }

  lemma SectionsStep(f: map<string, ConfigNode>, name: string, n: ConfigNode, rest: map<string, ConfigNode>)
    ensures f[name := n] + rest == f + (map[name := n] + rest)
    ensures f[name := n] == f + (map[name := n] + map[])
  {
  }

  lemma {:induction false} DocParses(st: State, order: Order)
    requires forall i :: 0 <= i < |order| ==> SectionOk(order[i].0, order[i].1)
    requires |order| > 0
    ensures ParseText(DocText(order), st).root == Object(Fields(st.root) + Sections(order))
    decreases |order|
  {
    var name, es, rest := order[0].0, order[0].1, order[1..];
    var n := Filled(Members(es));
    var st' := State(SetField(st.root, name, n), name);
    SectionParses(st, name, es, DocText(rest));
    assert ParseText(DocText(order), st) == ParseText(DocText(rest), st');
    SectionsStep(Fields(st.root), name, n, Sections(rest));
    if |rest| > 0 {
      DocParses(st', rest);
    }
  }

  lemma DocParsesFresh(st: State, order: Order)
    requires forall i :: 0 <= i < |order| ==> SectionOk(order[i].0, order[i].1)
    requires st.root == FRESH
    ensures ParseText(DocText(order), st).root == Filled(Sections(order))
  {
    if |order| > 0 {
      DocParses(st, order);
      assert order[0].0 in Sections(order) by {
        SectionsHead(order);
      }
      assert map[] + Sections(order) == Sections(order);
    }
  }

  lemma SectionsHead(order: Order)
    requires |order| > 0
    ensures order[0].0 in Sections(order)
  {
  }

  lemma {:induction false} SectionsAre(order: Order, k: string)
    requires forall i, j :: 0 <= i < j < |order| ==> order[i].0 != order[j].0
    ensures k in Sections(order) <==> HasKey(order, k)
    ensures forall i :: 0 <= i < |order| && order[i].0 == k ==>
              k in Sections(order) && Sections(order)[k] == Filled(Members(order[i].1))
    decreases |order|
  {
    if |order| > 0 {
      var t := order[1..];
      SectionsAre(t, k);
      assert order == [order[0]] + t;
      if HasKey(t, k) {
        var j :| 0 <= j < |t| && t[j].0 == k;
        assert order[j + 1].0 == k;
      } else if order[0].0 == k {
        assert HasKey(order, k);
      } else {
        assert forall j :: 0 < j < |order| ==> order[j] == t[j - 1];
      }
      forall i | 0 <= i < |order| && order[i].0 == k
        ensures k in Sections(order) && Sections(order)[k] == Filled(Members(order[i].1))
      {
        if i > 0 {
          assert t[i - 1] == order[i];
        } else {
          assert forall j :: 0 <= j < |t| ==> t[j].0 == order[j + 1].0 != k;
          assert !HasKey(t, k);
        }
      }
    }
  }

  lemma SectionsOfEnumeration(order: Order, m: map<string, ConfigNode>)
    requires EnumeratesDoc(order, m)
    ensures Sections(order) == NormalDoc(m)
  {
    forall k: string
      ensures k in Sections(order) <==> k in NormalDoc(m)
      ensures k in Sections(order) && k in NormalDoc(m) ==> Sections(order)[k] == NormalDoc(m)[k]
    {
      SectionsAre(order, k);
      if HasKey(order, k) {
        var i :| 0 <= i < |order| && order[i].0 == k;
        MembersOfEnumeration(order[i].1, m[k].fields);
      }
    }
  }

  lemma SectionOkOfDoc(order: Order, m: map<string, ConfigNode>, i: nat)
    requires DocOk(m) && EnumeratesDoc(order, m) && i < |order|
    ensures SectionOk(order[i].0, order[i].1)
  {
    var name, es := order[i].0, order[i].1;
    var fields := m[name].fields;
    assert forall j :: 0 <= j < |es| && es[j].1.Value? ==> es[j].0 in Normal(fields);
  }

  lemma DocOkSections(order: Order, m: map<string, ConfigNode>)
    requires DocOk(m) && EnumeratesDoc(order, m)
    ensures forall i :: 0 <= i < |order| ==> SectionOk(order[i].0, order[i].1)
  {
    forall i | 0 <= i < |order|
      ensures SectionOk(order[i].0, order[i].1)
    {
      SectionOkOfDoc(order, m, i);
    }
  }

  // Printing a document in any order and parsing the text into a fresh root
  // gives the document back, with every value as the string it prints as and
  // an empty section or document as an empty string.
  lemma RoundTrip(m: map<string, ConfigNode>, order: Order)
    requires DocOk(m) && EnumeratesDoc(order, m)
    ensures ParseText(DocText(order), State(FRESH, "")).root == Filled(NormalDoc(m))
  {
    DocOkSections(order, m);
    DocParsesFresh(State(FRESH, ""), order);
    SectionsOfEnumeration(order, m);
  }

  // ---------- Only these documents come back ----------

  // Whatever is stored under key in the section name is not printed like a header.
  ghost predicate Readable(root: ConfigNode, name: string, key: string)
  {
    var f := Fields(Field(root, name));
    key in f ==> f[key].Value? && f[key].v.Str? && !HeaderLike(key, f[key].v.s)
  }

  ghost predicate EntriesShaped(es: seq<(string, ConfigNode)>)
  {
    forall i :: 0 <= i < |es| && es[i].1.Value? ==> KeyShaped(es[i].0)
  }

  lemma EntryKeepsReadable(st: State, key: string, text: string, name: string, q: string)
    requires KeyShaped(key) && Readable(st.root, name, q)
    ensures Readable(ParseLine(st, EntryLine(key, text)).root, name, q)
  {
    if HeaderLike(key, text) {
      var _ := HeaderLikeParses(st, key, text);
    } else if |st.section| > 0 {
      EntryParses(st, key, text);
    } else {
      EntryShape(key, text);
      ShapeEnds(key, text);
    }
  }

  lemma {:induction false} EntriesKeepReadable(st: State, es: seq<(string, ConfigNode)>, rest: string,
                                               name: string, q: string)
    returns (t: State)
    requires EntriesShaped(es) && Readable(st.root, name, q)
    ensures Readable(t.root, name, q) && ParseText(EntriesText(es) + rest, st) == ParseText(rest, t)
    decreases |es|
  {
    if |es| == 0 {
      assert EntriesText(es) + rest == rest;
      t := st;
    } else {
      var (key, n) := es[0];
      var tail := EntriesText(es[1..]) + rest;
      ConcatAssoc(EntryText(es[0]), EntriesText(es[1..]), rest);
      if n.Value? {
        var line := EntryLine(key, Render(n.v));
        EntryHasNoNewline(key, Render(n.v));
        EntryKeepsReadable(st, key, Render(n.v), name, q);
        LineParses(line, tail, st);
        t := EntriesKeepReadable(ParseLine(st, line), es[1..], rest, name, q);
      } else {
        assert EntryText(es[0]) + tail == tail;
        t := EntriesKeepReadable(st, es[1..], rest, name, q);
      }
    }
  }

  lemma SectionKeepsReadable(st: State, head: string, es: seq<(string, ConfigNode)>, rest: string,
                             name: string, q: string)
    returns (t: State)
    requires '\n' !in head && EntriesShaped(es) && Readable(st.root, name, q)
    ensures Readable(t.root, name, q) && ParseText(SectionText(head, es) + rest, st) == ParseText(rest, t)
  {
    var blank := "" + "\n" + rest;
    SectionSplits(head, es, rest);
    LineParses("[" + head + "]", EntriesText(es) + blank, st);
    HeaderParses(st, head);
    t := EntriesKeepReadable(ParseLine(st, "[" + head + "]"), es, blank, name, q);
    LineParses("", rest, t);
  }

  lemma {:induction false} DocKeepsReadable(st: State, order: Order, name: string, q: string)
    requires forall i :: 0 <= i < |order| ==> '\n' !in order[i].0 && EntriesShaped(order[i].1)
    requires Readable(st.root, name, q)
    ensures Readable(ParseText(DocText(order), st).root, name, q)
    decreases |order|
  {
    if |order| > 0 {
      var t := SectionKeepsReadable(st, order[0].0, order[0].1, DocText(order[1..]), name, q);
      DocKeepsReadable(t, order[1..], name, q);
    }
  }

  // If the document came back, its sections are named and its keys shaped like
  // those that parse can make.
  lemma BackIsShaped(m: map<string, ConfigNode>, data: string, k: string)
    requires ParseText(data, State(FRESH, "")).root == Filled(NormalDoc(m)) && k in m
    ensures Tight(k) && '\n' !in k && (k == "" ==> Normal(Fields(m[k])) == map[])
    ensures forall q :: q in Normal(Fields(m[k])) ==> KeyShaped(q)
  {
    var st := State(FRESH, "");
    var r := ParseText(data, st).root;
    TextAddsSections(data, st);
    assert Fields(r) == NormalDoc(m);
    assert Fields(Field(r, k)) == Normal(Fields(m[k]));
    forall q | q in Normal(Fields(m[k]))
      ensures KeyShaped(q)
    {
      TextAddsShaped(data, st, k, q);
    }
  }

  lemma BackOrderIsShaped(m: map<string, ConfigNode>, order: Order, i: nat)
    requires EnumeratesDoc(order, m) && i < |order|
    requires ParseText(DocText(order), State(FRESH, "")).root == Filled(NormalDoc(m))
    ensures '\n' !in order[i].0 && EntriesShaped(order[i].1)
  {
    var name, es := order[i].0, order[i].1;
    BackIsShaped(m, DocText(order), name);
    forall j | 0 <= j < |es| && es[j].1.Value?
      ensures KeyShaped(es[j].0)
    {
      assert es[j].0 in Normal(Fields(m[name]));
    }
  }

  lemma BackIsReadable(m: map<string, ConfigNode>, order: Order, k: string, q: string)
    requires EnumeratesDoc(order, m)
    requires ParseText(DocText(order), State(FRESH, "")).root == Filled(NormalDoc(m))
    requires k in m && q in Normal(Fields(m[k]))
    ensures !HeaderLike(q, Render(Fields(m[k])[q].v))
  {
    var st := State(FRESH, "");
    forall i | 0 <= i < |order|
      ensures '\n' !in order[i].0 && EntriesShaped(order[i].1)
    {
      BackOrderIsShaped(m, order, i);
    }
    DocKeepsReadable(st, order, k, q);
    ReadableBack(m, k, q);
  }

  lemma ReadableBack(m: map<string, ConfigNode>, k: string, q: string)
    requires k in m && q in Normal(Fields(m[k])) && Readable(Filled(NormalDoc(m)), k, q)
    ensures !HeaderLike(q, Render(Fields(m[k])[q].v))
  {
    assert Fields(Field(Filled(NormalDoc(m)), k)) == Normal(Fields(m[k]));
  }

  // A document of sections comes back from its text, in whatever order it was
  // printed, if and only if it is one that DocOk describes.
  lemma RoundTripExactly(m: map<string, ConfigNode>, order: Order)
    requires EnumeratesDoc(order, m)
    ensures ParseText(DocText(order), State(FRESH, "")).root == Filled(NormalDoc(m)) <==> DocOk(m)
  {
    if DocOk(m) {
      RoundTrip(m, order);
    }
    if ParseText(DocText(order), State(FRESH, "")).root == Filled(NormalDoc(m)) {
      forall k | k in m
        ensures Tight(k) && '\n' !in k && m[k].Object? && FieldsOk(k, m[k].fields)
      {
        assert HasKey(order, k);
        BackIsShaped(m, DocText(order), k);
        forall q | q in Normal(m[k].fields)
          ensures KeyOk(q, Render(m[k].fields[q].v))
        {
          BackIsReadable(m, order, k, q);
        }
      }
    }
  }

  // Non-empty sections that hold strings only.
  ghost predicate AllStrings(m: map<string, ConfigNode>)
  {
    m != map[] &&
    forall k :: k in m ==>
      m[k].Object? && m[k].fields != map[] &&
      forall q :: q in m[k].fields ==> m[k].fields[q].Value? && m[k].fields[q].v.Str?
  }

  lemma StringsAreNormal(m: map<string, ConfigNode>)
    requires AllStrings(m)
    ensures Filled(NormalDoc(m)) == Object(m)
  {
    forall k | k in m
      ensures NormalDoc(m)[k] == m[k]
    {
      assert Normal(m[k].fields) == m[k].fields;
    }
    assert NormalDoc(m) == m;
  }

  // A value read back: a string that says what the value was.
  ghost predicate ComesBack(v: Scalar, n: ConfigNode)
  {
    n.Value? && n.v.Str? && Says(n.v.s, v)
  }

  lemma MemberComesBack(m: map<string, ConfigNode>, k: string, q: string)
    requires DocOk(m) && k in m && q in m[k].fields && m[k].fields[q].Value?
    ensures ComesBack(m[k].fields[q].v, Field(Field(Filled(NormalDoc(m)), k), q))
  {
    var v := m[k].fields[q].v;
    RenderSays(v);
    assert q in Normal(m[k].fields);
    assert Field(Filled(NormalDoc(m)), k) == Object(Normal(m[k].fields));
  }

  // dump followed by parse, whatever order dump happens to use: the document
  // comes back exactly if it is one that DocOk describes, and then one of
  // non-empty sections of strings is as it was, and every value of another kind
  // comes back as a text that says what it was. Nothing comes back if dump throws.
  method DumpThenParse(m: map<string, ConfigNode>) returns (r: Option<ConfigNode>)
    ensures r.None? <==> exists k :: k in m && !m[k].Object?
    ensures r.Some? ==> (r.value == Filled(NormalDoc(m)) <==> DocOk(m))
    ensures DocOk(m) && AllStrings(m) ==> r == Some(Object(m))
    ensures DocOk(m) ==> r.Some? && forall k, q :: k in m && q in m[k].fields && m[k].fields[q].Value? ==>
              ComesBack(m[k].fields[q].v, Field(Field(r.value, k), q))
  {
    var text, order := Dump(Object(m));
    if text.None? {
      return None;
    }
    RoundTripExactly(m, order);
    if DocOk(m) {
      forall k, q | k in m && q in m[k].fields && m[k].fields[q].Value?
        ensures ComesBack(m[k].fields[q].v, Field(Field(Filled(NormalDoc(m)), k), q))
      {
        MemberComesBack(m, k, q);
      }
    }
    var root := Parse(text.value, FRESH);
    if AllStrings(m) {
      StringsAreNormal(m);
    }
    return Some(root);
  }

  // ---------- What parse read is printed and read again ----------

  // A section as parse makes them: fresh, or with entries that are all strings.
  ghost predicate ReadSection(n: ConfigNode)
  {
    n == FRESH ||
    (n.Object? && n.fields != map[] && forall q :: q in n.fields ==> n.fields[q].Value? && n.fields[q].v.Str?)
  }

  lemma PutReadsSection(root: ConfigNode, section: string, key: string, text: string, name: string)
    requires ReadSection(Field(root, name))
    ensures ReadSection(Field(Put(root, section, key, Value(Str(text))), name))
  {
    if name == section {
      var f := Fields(Field(root, name));
      assert Field(Put(root, section, key, Value(Str(text))), name) == Object(f[key := Value(Str(text))]);
      assert key in f[key := Value(Str(text))];
    }
  }

  lemma LineReadsSection(st: State, line: string, name: string)
    requires ReadSection(Field(st.root, name))
    ensures ReadSection(Field(ParseLine(st, line).root, name))
    ensures (st.root.Object? ==> st.root.fields != map[]) ==>
              (ParseLine(st, line).root.Object? ==> ParseLine(st, line).root.fields != map[])
  {
    var l, t := Trim(line), ParseLine(st, line);
    if t.root != st.root && !(l[0] == '[' && l[|l| - 1] == ']') {
      var pos := Find(l, '=');
      var key, text := Trim(l[..pos]), TrimQuotes(Unescape(Trim(l[pos + 1..])));
      PutReadsSection(st.root, st.section, key, text, name);
      assert st.section in t.root.fields;
    } else if t.root != st.root {
      assert t.section in t.root.fields;
    }
  }

  lemma {:induction false} TextReadsSection(data: string, st: State, name: string)
    requires ReadSection(Field(st.root, name))
    ensures ReadSection(Field(ParseText(data, st).root, name))
    ensures (st.root.Object? ==> st.root.fields != map[]) ==>
              (ParseText(data, st).root.Object? ==> ParseText(data, st).root.fields != map[])
    decreases |data|
  {
    if |data| > 0 {
      var k := Find(data, '\n');
      assert k == |data| ==> data[..k] == data;
      LineReadsSection(st, data[..k], name);
      if k < |data| {
        TextReadsSection(data[k + 1..], ParseLine(st, data[..k]), name);
      }
    }
  }

  // No entry is one that dump prints like a section header.
  ghost predicate NoHeaderLike(m: map<string, ConfigNode>)
  {
    forall k, q :: k in m && q in Normal(Fields(m[k])) ==> !HeaderLike(q, Render(Fields(m[k])[q].v))
  }

  // For the sections parse made of some text: dump throws exactly if one of
  // them had no entry; otherwise they are non-empty and hold strings only.
  lemma ReadDocument(data: string, m: map<string, ConfigNode>, k: string)
    requires ParseText(data, State(FRESH, "")).root == Object(m) && k in m
    ensures !m[k].Object? <==> m[k] == FRESH
    ensures m[k].Object? ==> m[k].fields != map[]
    ensures m[k].Object? ==> forall q :: q in m[k].fields ==> m[k].fields[q].Value? && m[k].fields[q].v.Str?
    ensures Tight(k) && '\n' !in k && (m[k].Object? ==> k != "")
    ensures forall q :: q in Normal(Fields(m[k])) ==> KeyShaped(q)
  {
    var st := State(FRESH, "");
    TextReadsSection(data, st, k);
    TextAddsSections(data, st);
    assert Field(Object(m), k) == m[k];
    forall q | q in Normal(Fields(m[k]))
      ensures KeyShaped(q)
    {
      TextAddsShaped(data, st, k, q);
    }
  }

  lemma ReadDocOk(data: string, m: map<string, ConfigNode>)
    requires ParseText(data, State(FRESH, "")).root == Object(m)
    requires forall k :: k in m ==> m[k].Object?
    ensures DocOk(m) <==> NoHeaderLike(m)
    ensures AllStrings(m)
  {
    TextReadsSection(data, State(FRESH, ""), "");
    forall k | k in m
      ensures FieldsOk(k, m[k].fields) <==>
                forall q :: q in Normal(Fields(m[k])) ==> !HeaderLike(q, Render(Fields(m[k])[q].v))
      ensures Tight(k) && '\n' !in k && m[k].fields != map[]
      ensures forall q :: q in m[k].fields ==> m[k].fields[q].Value? && m[k].fields[q].v.Str?
    {
      ReadDocument(data, m, k);
    }
  }

  // A document that parse read and dump can print comes back, in whatever order
  // it was printed, if and only if none of its entries looks like a header.
  lemma ReadBackExactly(data: string, m: map<string, ConfigNode>, order: Order)
    requires ParseText(data, State(FRESH, "")).root == Object(m) && EnumeratesDoc(order, m)
    ensures ParseText(DocText(order), State(FRESH, "")).root == Object(m) <==> NoHeaderLike(m)
  {
    forall k | k in m
      ensures m[k].Object?
    {
      assert HasKey(order, k);
    }
    ReadDocOk(data, m);
    StringsAreNormal(m);
    RoundTripExactly(m, order);
  }

  // Whatever text the document was read from: dump throws exactly if the text
  // left a section without entries; otherwise parsing what dump prints gives
  // the same document exactly if no entry looks like a header.
  method ParseThenDump(data: string) returns (m: map<string, ConfigNode>, r: Option<ConfigNode>)
    requires ParseText(data, State(FRESH, "")).root.Object?
    ensures Object(m) == ParseText(data, State(FRESH, "")).root
    ensures r.None? <==> exists k :: k in m && m[k] == FRESH
    ensures r.Some? ==> (r.value == Object(m) <==> NoHeaderLike(m))
  {
    var root := Parse(data, FRESH);
    m := root.fields;
    r := DumpThenParse(m);
    forall k | k in m
      ensures !m[k].Object? <==> m[k] == FRESH
    {
      ReadDocument(data, m, k);
    }
    if r.Some? {
      ReadDocOk(data, m);
      StringsAreNormal(m);
    }
  }
}
