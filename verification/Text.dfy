/** Text as the printers and the walk handle it: prefixes, joining, splitting at one character. */
module Text {
  import opened LittleEndian

  function StripPrefix(s: string, prefix: string): Option<string> {
    if prefix <= s then Some(s[|prefix|..]) else None
  }

  function Join(parts: seq<string>, sep: string): string {
    if parts == [] then ""
    else if |parts| == 1 then parts[0]
    else parts[0] + sep + Join(parts[1..], sep)
  }

  /** The pieces between separators; a text without any is one piece. */
  function Split(s: string, sep: char): (r: seq<string>)
    ensures |r| >= 1
  {
    if s == "" then [""]
    else if s[0] == sep then [""] + Split(s[1..], sep)
    else
      var rest := Split(s[1..], sep);
      [[s[0]] + rest[0]] + rest[1..]
  }

  lemma {:induction false} SplitProper(s: string, sep: char)
    ensures forall p :: p in Split(s, sep) ==> sep !in p
    ensures sep !in s ==> Split(s, sep) == [s]
  {
    if s != "" {
      SplitProper(s[1..], sep);
      assert s == [s[0]] + s[1..];
      if s[0] != sep {
        assert Split(s[1..], sep)[0] in Split(s[1..], sep);
      }
    }
  }

  lemma {:induction false} SplitConcat(a: string, sep: char, b: string)
    requires sep !in a
    ensures Split(a + [sep] + b, sep) == [a] + Split(b, sep)
  {
    var s := a + [sep] + b;
    if a == "" {
      assert s[1..] == b;
    } else {
      assert s[1..] == a[1..] + [sep] + b && s[0] == a[0];
      SplitConcat(a[1..], sep, b);
      assert Split(s[1..], sep)[1..] == Split(b, sep);
      assert [a[0]] + a[1..] == a;
    }
  }

  /** Nothing is lost: joining undoes splitting. */
  lemma {:induction false} JoinSplit(s: string, sep: char)
    ensures Join(Split(s, sep), [sep]) == s
  {
    if s != "" {
      JoinSplit(s[1..], sep);
      var rest := Split(s[1..], sep);
      assert s == [s[0]] + s[1..];
      if s[0] == sep {
        assert Split(s, sep)[1..] == rest;
      } else if |rest| > 1 {
        assert Split(s, sep)[1..] == rest[1..];
        assert Join(rest, [sep]) == rest[0] + [sep] + Join(rest[1..], [sep]);
        assert [s[0]] + rest[0] + [sep] + Join(rest[1..], [sep]) == [s[0]] + Join(rest, [sep]);
      }
    }
  }

  /** Splitting undoes joining exactly when no part holds the separator. */
  lemma {:induction false} SplitJoin(parts: seq<string>, sep: char)
    requires parts != []
    ensures Split(Join(parts, [sep]), sep) == parts <==> forall p :: p in parts ==> sep !in p
  {
    SplitProper(Join(parts, [sep]), sep);
    if forall p :: p in parts ==> sep !in p {
      assert parts == [parts[0]] + parts[1..] && parts[0] in parts;
      if |parts| == 1 {
        SplitProper(parts[0], sep);
      } else {
        assert forall p :: p in parts[1..] ==> p in parts;
        SplitJoin(parts[1..], sep);
        SplitConcat(parts[0], sep, Join(parts[1..], [sep]));
      }
    }
  }
}
