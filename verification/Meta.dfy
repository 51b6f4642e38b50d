/**
 The JSON metadata printers: arrays of two-member string objects, escaped by chained replacement.
 Their inverse is a reader for arrays of flat string objects in the grammar of RFC 8259, with the
 string rules of its section 7.
 */
module Meta {
  import opened LittleEndian
  import opened Numerals

  // ---------- printing ----------

  /** `s.replace(from, to)` for a one-character pattern. */
  function Replace(s: string, from: char, to: string): string {
    if s == "" then "" else (if s[0] == from then to else [s[0]]) + Replace(s[1..], from, to)
  }

  /** Backslash first, then quote, then newline. */
  function Esc(s: string): string {
    Replace(Replace(Replace(s, '\\', "\\\\"), '"', "\\\""), '\n', "\\n")
  }

  function ItemText(key1: string, key2: string, item: (string, string)): string {
    "{\"" + key1 + "\":\"" + Esc(item.0) + "\",\"" + key2 + "\":\"" + Esc(item.1) + "\"}"
  }

  function ItemsText(key1: string, key2: string, items: seq<(string, string)>): string {
    if items == [] then ""
    else if |items| == 1 then ItemText(key1, key2, items[0])
    else ItemText(key1, key2, items[0]) + "," + ItemsText(key1, key2, items[1..])
  }

  function ArrayText(key1: string, key2: string, items: seq<(string, string)>): string {
    "[" + ItemsText(key1, key2, items) + "]"
  }

  function AgentTestTasksJson(tasks: seq<(string, string)>): string {
    ArrayText("name", "prompt", tasks)
  }

  function ExampleQueriesJson(examples: seq<(string, string)>): string {
    ArrayText("description", "sql", examples)
  }

  // ---------- one escape per character ----------

  function EscChar(c: char): string {
    if c == '\\' then "\\\\" else if c == '"' then "\\\"" else if c == '\n' then "\\n" else [c]
  }

  function EscEach(s: string): string {
    if s == "" then "" else EscChar(s[0]) + EscEach(s[1..])
  }

  lemma {:induction false} ReplaceConcat(a: string, b: string, from: char, to: string)
    ensures Replace(a + b, from, to) == Replace(a, from, to) + Replace(b, from, to)
  {
    if a == "" {
      assert a + b == b;
    } else {
      assert (a + b)[1..] == a[1..] + b;
      ReplaceConcat(a[1..], b, from, to);
    }
  }

  lemma ReplaceOne(c: char, from: char, to: string)
    ensures Replace([c], from, to) == if c == from then to else [c]
  {
    assert [c][1..] == "";
  }

  /** Later replacements never touch what earlier ones put in: the chain is one map over characters. */
  lemma {:induction false} ChainIsMap(s: string)
    ensures Esc(s) == EscEach(s)
  {
    if s != "" {
      hide Replace;
      var c, rest := s[0], s[1..];
      ChainIsMap(rest);
      assert s == [c] + rest;
      var r1 := Replace(rest, '\\', "\\\\");
      var r2 := Replace(r1, '"', "\\\"");
      ReplaceConcat([c], rest, '\\', "\\\\");
      ReplaceConcat(Replace([c], '\\', "\\\\"), r1, '"', "\\\"");
      ReplaceConcat(Replace(Replace([c], '\\', "\\\\"), '"', "\\\""), r2, '\n', "\\n");
      EscOne(c);
    } else {
      EscNone();
    }
  }

  lemma EscNone()
    ensures Esc("") == ""
  {
  }

  lemma EscOne(c: char)
    ensures Esc([c]) == EscChar(c)
  {
    hide Replace;
    ReplaceOne(c, '\\', "\\\\");
    if c == '\\' {
      assert "\\\\" == "\\" + "\\";
      ReplaceConcat("\\", "\\", '"', "\\\"");
      ReplaceOne('\\', '"', "\\\"");
      ReplaceConcat("\\", "\\", '\n', "\\n");
      ReplaceOne('\\', '\n', "\\n");
    } else {
      ReplaceOne(c, '"', "\\\"");
      if c == '"' {
        assert "\\\"" == "\\" + "\"";
        ReplaceConcat("\\", "\"", '\n', "\\n");
        ReplaceOne('\\', '\n', "\\n");
        ReplaceOne('"', '\n', "\\n");
      } else {
        ReplaceOne(c, '\n', "\\n");
      }
    }
  }

  // ---------- reading ----------

  function SkipWs(s: string): (r: string)
    ensures |r| <= |s|
  {
    if s != "" && s[0] in [' ', '\t', '\n', '\r'] then SkipWs(s[1..]) else s
  }

  /** The character a one-letter escape stands for. */
  function Unescaped(c: char): Option<char> {
    if c == '"' || c == '\\' || c == '/' then Some(c)
    else if c == 'b' then Some(8 as char)
    else if c == 'f' then Some(12 as char)
    else if c == 'n' then Some('\n')
    else if c == 'r' then Some('\r')
    else if c == 't' then Some('\t')
    else None
  }

  function HexAnyCase(c: char): Option<int> {
    if 'A' <= c <= 'F' then Some(c as int - 'A' as int + 10) else HexValue(c)
  }

  function Hex4(s: string): Option<u16>
    requires |s| >= 4
  {
    match (HexAnyCase(s[0]), HexAnyCase(s[1]), HexAnyCase(s[2]), HexAnyCase(s[3]))
    case (Some(a), Some(b), Some(c), Some(d)) =>
      var v := 0x1000 * a + 0x100 * b + 0x10 * c + d;
      if 0 <= v < 0x1_0000 then Some(v) else None
    case _ => None
  }

  /** The rest of a string after its opening quote: its content and what follows the closing quote. */
  function ParseString(s: string): (r: Option<(string, string)>)
    ensures r.Some? ==> |r.value.1| < |s|
    decreases |s|
  {
    if s == "" || s[0] < ' ' then None
    else if s[0] == '"' then Some(("", s[1..]))
    else if s[0] != '\\' then Prepend(s[0], ParseString(s[1..]))
    else if |s| < 2 then None
    else if s[1] != 'u' then
      match Unescaped(s[1])
      case None => None
      case Some(c) => Prepend(c, ParseString(s[2..]))
    else if |s| < 6 then None
    else
      match Hex4(s[2..])
      case None => None
      case Some(u) =>
        if !(0xD800 <= u < 0xE000) then Prepend(u as char, ParseString(s[6..]))
        else if u >= 0xDC00 || |s| < 12 || s[6] != '\\' || s[7] != 'u' then None
        else
          match Hex4(s[8..])
          case None => None
          case Some(l) =>
            if !(0xDC00 <= l < 0xE000) then None
            else Prepend((0x1_0000 + (u - 0xD800) * 0x400 + (l - 0xDC00)) as char, ParseString(s[12..]))
  }

  function Prepend(c: char, r: Option<(string, string)>): Option<(string, string)> {
    match r
    case None => None
    case Some((content, rest)) => Some(([c] + content, rest))
  }

  type Object = seq<(string, string)>

  /** A member: name, colon, string value. */
  function ParseMember(s: string): (r: Option<((string, string), string)>)
    ensures r.Some? ==> |r.value.1| < |s|
  {
    var s0 := SkipWs(s);
    if s0 == "" || s0[0] != '"' then None
    else
      match ParseString(s0[1..])
      case None => None
      case Some((name, s1)) =>
        var s2 := SkipWs(s1);
        if s2 == "" || s2[0] != ':' then None
        else
          var s3 := SkipWs(s2[1..]);
          if s3 == "" || s3[0] != '"' then None
          else
            match ParseString(s3[1..])
            case None => None
            case Some((value, s4)) => Some(((name, value), SkipWs(s4)))
  }

  /** Members up to the closing brace. */
  function ParseMembers(s: string): (r: Option<(Object, string)>)
    ensures r.Some? ==> |r.value.1| < |s|
    decreases |s|
  {
    match ParseMember(s)
    case None => None
    case Some((member, s1)) =>
      if s1 == "" then None
      else if s1[0] == '}' then Some(([member], s1[1..]))
      else if s1[0] != ',' then None
      else
        match ParseMembers(s1[1..])
        case None => None
        case Some((members, rest)) => Some(([member] + members, rest))
  }

  function ParseObject(s: string): (r: Option<(Object, string)>)
    ensures r.Some? ==> |r.value.1| < |s|
  {
    var s0 := SkipWs(s);
    if s0 == "" || s0[0] != '{' then None
    else
      var s1 := SkipWs(s0[1..]);
      if s1 != "" && s1[0] == '}' then Some(([], s1[1..])) else ParseMembers(s1)
  }

  /** Elements up to the closing bracket. */
  function ParseElements(s: string): Option<(seq<Object>, string)>
    decreases |s|
  {
    match ParseObject(s)
    case None => None
    case Some((first, rest)) =>
      var s1 := SkipWs(rest);
      if s1 == "" then None
      else if s1[0] == ']' then Some(([first], s1[1..]))
      else if s1[0] != ',' then None
      else
        match ParseElements(s1[1..])
        case None => None
        case Some((all, more)) => Some(([first] + all, more))
  }

  /** A whole text: an array of flat string objects. */
  function ParseArray(text: string): Option<seq<Object>> {
    var s0 := SkipWs(text);
    if s0 == "" || s0[0] != '[' then None
    else
      var s1 := SkipWs(s0[1..]);
      var r: Option<(seq<Object>, string)> :=
        if s1 != "" && s1[0] == ']' then Some(([], s1[1..])) else ParseElements(s1);
      match r
      case None => None
      case Some((all, rest)) => if SkipWs(rest) == "" then Some(all) else None
  }

  // ---------- round trip ----------

  /** No control character other than newline. */
  predicate Printable(s: string) {
    forall i :: 0 <= i < |s| ==> s[i] >= ' ' || s[i] == '\n'
  }

  lemma PrintableCons(s: string)
    requires s != ""
    ensures Printable(s) <==> (s[0] >= ' ' || s[0] == '\n') && Printable(s[1..])
  {
    assert forall i :: 0 <= i < |s[1..]| ==> s[1..][i] == s[i + 1];
    assert forall i :: 0 < i < |s| ==> s[i] == s[1..][i - 1];
  }

  /** A printed string reads back, and exactly the printable ones do. */
  lemma {:induction false} StringBack(s: string, rest: string)
    ensures ParseString(EscEach(s) + "\"" + rest) == if Printable(s) then Some((s, rest)) else None
  {
    var text := EscEach(s) + "\"" + rest;
    if s == "" {
      assert text[1..] == rest;
    } else {
      var c, tail := s[0], EscEach(s[1..]) + "\"" + rest;
      StringBack(s[1..], rest);
      assert text == EscChar(c) + tail;
      assert s == [c] + s[1..];
      PrintableCons(s);
      if |EscChar(c)| == 2 {
        assert text[2..] == tail;
      } else {
        assert text[1..] == tail;
      }
    }
  }

  predicate Plain(key: string) {
    forall i :: 0 <= i < |key| ==> 'a' <= key[i] <= 'z'
  }

  lemma {:induction false} PlainIsItself(key: string)
    requires Plain(key)
    ensures EscEach(key) == key && Printable(key)
  {
    if key != "" {
      assert key == [key[0]] + key[1..];
      assert forall i :: 0 <= i < |key[1..]| ==> key[1..][i] == key[i + 1];
      PlainIsItself(key[1..]);
    }
  }

  predicate ItemPrintable(item: (string, string)) {
    Printable(item.0) && Printable(item.1)
  }

  function ItemObject(key1: string, key2: string, item: (string, string)): Object {
    [(key1, item.0), (key2, item.1)]
  }

  /** A member's text, from its opening quote to its closing one. */
  function MemberText(key: string, value: string): string {
    "\"" + key + "\":\"" + EscEach(value) + "\""
  }

  lemma MemberBack(key: string, value: string, rest: string)
    requires Plain(key) && rest != "" && rest[0] in ['}', ',']
    ensures ParseMember(MemberText(key, value) + rest) == if Printable(value) then Some(((key, value), rest)) else None
  {
    hide ParseString, EscEach;
    var text := MemberText(key, value) + rest;
    var afterValue := EscEach(value) + "\"" + rest;
    var afterKey := ":\"" + afterValue;
    PlainIsItself(key);
    assert text[1..] == EscEach(key) + "\"" + afterKey;
    StringBack(key, afterKey);
    assert afterKey[1..][1..] == afterValue;
    StringBack(value, rest);
  }

  /** Two members and the closing brace. */
  lemma TwoMembersBack(key1: string, key2: string, item: (string, string), rest: string)
    requires Plain(key1) && Plain(key2)
    ensures ParseMembers(MemberText(key1, item.0) + ("," + (MemberText(key2, item.1) + ("}" + rest))))
         == if ItemPrintable(item) then Some((ItemObject(key1, key2, item), rest)) else None
  {
    hide ParseMember, MemberText, Printable, Plain;
    var second := MemberText(key2, item.1) + ("}" + rest);
    MemberBack(key1, item.0, "," + second);
    MemberBack(key2, item.1, "}" + rest);
    assert ("," + second)[1..] == second && ("}" + rest)[1..] == rest;
    assert ParseMembers(second) == if Printable(item.1) then Some(([(key2, item.1)], rest)) else None;
    assert [(key1, item.0)] + [(key2, item.1)] == ItemObject(key1, key2, item);
  }

  lemma ItemBack(key1: string, key2: string, item: (string, string), rest: string)
    requires Plain(key1) && Plain(key2)
    ensures ParseObject(ItemText(key1, key2, item) + rest)
         == if ItemPrintable(item) then Some((ItemObject(key1, key2, item), rest)) else None
  {
    hide ParseMembers, EscEach, Esc, Printable, Plain;
    TwoMembersBack(key1, key2, item, rest);
    ChainIsMap(item.0);
    ChainIsMap(item.1);
    var first := MemberText(key1, item.0) + ("," + (MemberText(key2, item.1) + ("}" + rest)));
    var text := ItemText(key1, key2, item) + rest;
    assert text == "{" + first;
    assert text[1..] == first && first[0] == '"';
    assert SkipWs(text) == text && SkipWs(first) == first;
  }

  predicate AllPrintable(items: seq<(string, string)>) {
    forall i :: 0 <= i < |items| ==> ItemPrintable(items[i])
  }

  function ItemObjects(key1: string, key2: string, items: seq<(string, string)>): seq<Object> {
    if items == [] then [] else [ItemObject(key1, key2, items[0])] + ItemObjects(key1, key2, items[1..])
  }

  lemma AllPrintableCons(items: seq<(string, string)>)
    requires items != []
    ensures AllPrintable(items) <==> ItemPrintable(items[0]) && AllPrintable(items[1..])
  {
    hide ItemPrintable;
    assert forall i :: 0 <= i < |items[1..]| ==> items[1..][i] == items[i + 1];
    assert forall i :: 0 < i < |items| ==> items[i] == items[1..][i - 1];
  }

  lemma {:induction false} ItemsBack(key1: string, key2: string, items: seq<(string, string)>)
    requires Plain(key1) && Plain(key2) && items != []
    ensures ParseElements(ItemsText(key1, key2, items) + "]")
         == if AllPrintable(items) then Some((ItemObjects(key1, key2, items), "")) else None
  {
    hide ParseObject, ItemText, ItemObject, ItemPrintable;
    var item, rest := items[0], items[1..];
    var text := ItemsText(key1, key2, items) + "]";
    assert items == [item] + rest;
    AllPrintableCons(items);
    if rest == [] {
      ItemBack(key1, key2, item, "]");
      assert text == ItemText(key1, key2, item) + "]";
      assert "]"[1..] == "" && SkipWs("]") == "]";
      assert ItemObjects(key1, key2, items) == [ItemObject(key1, key2, item)] + [] == [ItemObject(key1, key2, item)];
      assert AllPrintable(items) <==> ItemPrintable(item);
      assert ParseElements(text) == if AllPrintable(items) then Some((ItemObjects(key1, key2, items), "")) else None;
    } else {
      var tail := ItemsText(key1, key2, rest) + "]";
      assert text == ItemText(key1, key2, item) + ("," + tail);
      ItemBack(key1, key2, item, "," + tail);
      assert ("," + tail)[1..] == tail && SkipWs("," + tail) == "," + tail;
      ItemsBack(key1, key2, rest);
      assert ItemObjects(key1, key2, items) == [ItemObject(key1, key2, item)] + ItemObjects(key1, key2, rest);
      assert ParseElements(text) == if AllPrintable(items) then Some((ItemObjects(key1, key2, items), "")) else None;
    }
  }

  /**
   The emitted array reads back to exactly the items when they hold no control character other
   than newline; with any other control character what is emitted is not JSON.
   */
  lemma ArrayRoundTrip(key1: string, key2: string, items: seq<(string, string)>)
    requires Plain(key1) && Plain(key2)
    ensures ParseArray(ArrayText(key1, key2, items))
         == if AllPrintable(items) then Some(ItemObjects(key1, key2, items)) else None
  {
    hide ParseElements, ItemsText;
    var text := ArrayText(key1, key2, items);
    if items == [] {
      NoItems(key1, key2);
      assert text == "[]" && text[1..] == "]" && "]"[1..] == "";
    } else {
      assert text[1..] == ItemsText(key1, key2, items) + "]";
      ItemsStart(key1, key2, items);
      ItemsBack(key1, key2, items);
    }
  }

  /** A tab is enough for what is printed not to be JSON. */
  lemma TabIsNotJson()
    ensures ParseArray(AgentTestTasksJson([("list\tvalues", "")])) == None
  {
    hide ParseArray, ArrayText;
    var item := ("list\tvalues", "");
    KeysArePlain();
    ArrayRoundTrip("name", "prompt", [item]);
    assert item.0[4] == '\t';
    assert !ItemPrintable([item][0]);
  }

  /** What is printed, spelled out for one item and for two. */
  lemma JsonSpelled(a: string, b: string, c: string, d: string)
    ensures AgentTestTasksJson([(a, b)])
         == "[" + "{\"name\":\"" + EscEach(a) + "\",\"prompt\":\"" + EscEach(b) + "\"}" + "]"
    ensures var first := "{\"description\":\"" + EscEach(a) + "\",\"sql\":\"" + EscEach(b) + "\"}";
      var second := "{\"description\":\"" + EscEach(c) + "\",\"sql\":\"" + EscEach(d) + "\"}";
      ExampleQueriesJson([(a, b), (c, d)]) == "[" + (first + "," + second) + "]"
  {
    hide Esc, EscEach, ItemText;
    TaskSpelled(a, b);
    QuerySpelled(a, b);
    QuerySpelled(c, d);
    var items := [(a, b), (c, d)];
    assert items[1..] == [(c, d)];
    assert ItemsText("description", "sql", items)
        == ItemText("description", "sql", (a, b)) + "," + ItemText("description", "sql", (c, d));
  }

  lemma TaskSpelled(a: string, b: string)
    ensures ItemText("name", "prompt", (a, b))
         == "{\"name\":\"" + EscEach(a) + "\",\"prompt\":\"" + EscEach(b) + "\"}"
  {
    hide Esc, EscEach;
    ChainIsMap(a);
    ChainIsMap(b);
    assert "{\"" + "name" + "\":\"" == "{\"name\":\"";
    assert "\",\"" + "prompt" + "\":\"" == "\",\"prompt\":\"";
    ItemTextGroups("name", "prompt", Esc(a), Esc(b));
  }

  lemma QuerySpelled(a: string, b: string)
    ensures ItemText("description", "sql", (a, b))
         == "{\"description\":\"" + EscEach(a) + "\",\"sql\":\"" + EscEach(b) + "\"}"
  {
    hide Esc, EscEach;
    ChainIsMap(a);
    ChainIsMap(b);
    assert "{\"" + "description" + "\":\"" == "{\"description\":\"";
    assert "\",\"" + "sql" + "\":\"" == "\",\"sql\":\"";
    ItemTextGroups("description", "sql", Esc(a), Esc(b));
  }

  lemma ItemTextGroups(key1: string, key2: string, a: string, b: string)
    ensures "{\"" + key1 + "\":\"" + a + "\",\"" + key2 + "\":\"" + b + "\"}"
         == ("{\"" + key1 + "\":\"") + a + ("\",\"" + key2 + "\":\"") + b + "\"}"
  {
    var q := "\",\"";
    var head := "{\"" + key1 + "\":\"" + a;
    assert head + q + key2 + "\":\"" == head + (q + key2 + "\":\"");
  }

  lemma NoItems(key1: string, key2: string)
    ensures ItemsText(key1, key2, []) == "" && ItemObjects(key1, key2, []) == []
  {
  }

  lemma ItemsStart(key1: string, key2: string, items: seq<(string, string)>)
    requires items != []
    ensures ItemsText(key1, key2, items) != "" && ItemsText(key1, key2, items)[0] == '{'
  {
    hide Esc;
  }

  lemma MetadataRoundTrip(items: seq<(string, string)>)
    ensures ParseArray(AgentTestTasksJson(items))
         == if AllPrintable(items) then Some(ItemObjects("name", "prompt", items)) else None
    ensures ParseArray(ExampleQueriesJson(items))
         == if AllPrintable(items) then Some(ItemObjects("description", "sql", items)) else None
  {
    hide ParseArray, ArrayText, ItemObjects, AllPrintable, Plain;
    KeysArePlain();
    ArrayRoundTrip("name", "prompt", items);
    ArrayRoundTrip("description", "sql", items);
  }

  lemma KeysArePlain()
    ensures Plain("name") && Plain("prompt") && Plain("description") && Plain("sql")
  {
  }
}
