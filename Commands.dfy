/**
 * The commands the driver builds (`get_variable`, `set_variable`,
 * `increment_variable`) and the bytes `write` puts on the serial line.
 */
module Commands {
  import opened Wrappers
  import opened Strings
  import opened Utf8

  /**
   * `str.replace(" ", "")`: drops every space character and nothing else
   * (tabs and other whitespace stay), keeping the order of the rest.
   */
  function RemoveSpaces(s: string): string
  {
    if s == [] then []
    else (if s[0] == ' ' then [] else [s[0]]) + RemoveSpaces(s[1..])
  }

  /** No space is left. */
  lemma {:induction false} RemoveSpacesLeavesNone(s: string)
    ensures forall i :: 0 <= i < |RemoveSpaces(s)| ==> RemoveSpaces(s)[i] != ' '
  {
    if s != [] {
      RemoveSpacesLeavesNone(s[1..]);
      var head := if s[0] == ' ' then [] else [s[0]];
      forall i | 0 <= i < |RemoveSpaces(s)| ensures RemoveSpaces(s)[i] != ' ' {
        if i >= |head| {
          assert RemoveSpaces(s)[i] == RemoveSpaces(s[1..])[i - |head|];
        }
      }
    }
  }

  /** What is removed is the spaces, all of them, and not one other character. */
  lemma RemoveSpacesCounts(s: string)
    ensures forall c :: c != ' ' ==> multiset(RemoveSpaces(s))[c] == multiset(s)[c]
    ensures |RemoveSpaces(s)| == |s| - multiset(s)[' ']
  {
    forall c | c != ' ' ensures multiset(RemoveSpaces(s))[c] == multiset(s)[c] {
      RemoveSpacesKeeps(s, c);
    }
    RemoveSpacesLength(s);
  }

  /** Every character other than a space occurs as often after the removal as before. */
  lemma {:induction false} RemoveSpacesKeeps(s: string, c: char)
    requires c != ' '
    ensures multiset(RemoveSpaces(s))[c] == multiset(s)[c]
  {
    if s != [] {
      RemoveSpacesKeeps(s[1..], c);
      var head := if s[0] == ' ' then [] else [s[0]];
      assert multiset(RemoveSpaces(s)) == multiset(head) + multiset(RemoveSpaces(s[1..]));
      assert multiset(s) == multiset{s[0]} + multiset(s[1..]) by {
        assert s == [s[0]] + s[1..];
      }
    }
  }

  /** The removal shortens the string by the number of its spaces. */
  lemma {:induction false} RemoveSpacesLength(s: string)
    ensures |RemoveSpaces(s)| == |s| - multiset(s)[' ']
  {
    if s != [] {
      RemoveSpacesLength(s[1..]);
      assert multiset(s) == multiset{s[0]} + multiset(s[1..]) by {
        assert s == [s[0]] + s[1..];
      }
    }
  }

  lemma {:induction false} RemoveSpacesConcat(a: string, b: string)
    ensures RemoveSpaces(a + b) == RemoveSpaces(a) + RemoveSpaces(b)
  {
    if a == [] {
      assert a + b == b;
    } else {
      assert (a + b)[0] == a[0];
      assert (a + b)[1..] == a[1..] + b;
      RemoveSpacesConcat(a[1..], b);
    }
  }

  /** A name that has no space is left exactly as it is. */
  lemma {:induction false} RemoveSpacesNoSpace(s: string)
    requires forall i :: 0 <= i < |s| ==> s[i] != ' '
    ensures RemoveSpaces(s) == s
  {
    if s != [] {
      RemoveSpacesNoSpace(s[1..]);
    }
  }

  lemma RemoveSpacesIdempotent(s: string)
    ensures RemoveSpaces(RemoveSpaces(s)) == RemoveSpaces(s)
  {
    RemoveSpacesLeavesNone(s);
    RemoveSpacesNoSpace(RemoveSpaces(s));
  }

  /**
   * A command as the caller asks for it: a query `<name>?`, an assignment
   * `<name> = (<value>)` or an increment `<name> += (<value>)`.  The value
   * is the text that `"{}".format(val)` makes of the caller's argument.
   */
  datatype Command =
    | Query(name: string)
    | Assign(name: string, value: string)
    | Increment(name: string, value: string)

  /** The command text the driver passes to `write`. */
  function Format(c: Command): string
  {
    match c
    case Query(n) => RemoveSpaces(n) + "?"
    case Assign(n, v) => RemoveSpaces(n) + " = (" + v + ")"
    case Increment(n, v) => RemoveSpaces(n) + " += (" + v + ")"
  }

  /** The same command with the spaces taken out of its name. */
  function Normalize(c: Command): (r: Command)
    ensures forall i :: 0 <= i < |r.name| ==> r.name[i] != ' '
  {
    RemoveSpacesLeavesNone(c.name);
    c.(name := RemoveSpaces(c.name))
  }

  /**
   * Reads command text back into a command: the name runs up to the first
   * space (or up to the final '?' of a query), and the value is everything
   * between the parenthesis opened after the operator and the final one.
   */
  function Parse(t: string): Option<Command>
  {
    var k := IndexOf(t, ' ');
    if k == |t| then
      if |t| >= 1 && t[|t| - 1] == '?' then Some(Query(t[..|t| - 1])) else None
    else
      var rest := t[k..];
      if |rest| >= 5 && rest[..4] == " = (" && rest[|rest| - 1] == ')' then
        Some(Assign(t[..k], rest[4..|rest| - 1]))
      else if |rest| >= 6 && rest[..5] == " += (" && rest[|rest| - 1] == ')' then
        Some(Increment(t[..k], rest[5..|rest| - 1]))
      else None
  }

  /**
   * The formatted text determines the command up to the spaces of its
   * name: the operator is recovered, and so is the value, verbatim, even
   * when the value holds spaces, operators or parentheses of its own.
   */
  lemma ParseFormat(c: Command)
    ensures Parse(Format(c)) == Some(Normalize(c))
  {
    var n := RemoveSpaces(c.name);
    RemoveSpacesLeavesNone(c.name);
    match c
    case Query(_) =>
      ParseQuery(n);
    case Assign(_, v) =>
      ParseOperator(n, " = (", v);
    case Increment(_, v) =>
      ParseOperator(n, " += (", v);
  }

  lemma ParseQuery(n: string)
    requires forall i :: 0 <= i < |n| ==> n[i] != ' '
    ensures Parse(n + "?") == Some(Query(n))
  {
    var t := n + "?";
    forall x | 0 <= x < |t| ensures t[x] != ' ' {
      if x < |n| { assert t[x] == n[x]; }
    }
    assert IndexOf(t, ' ') == |t|;
    assert t[..|t| - 1] == n;
  }

  lemma ParseOperator(n: string, op: string, v: string)
    requires forall i :: 0 <= i < |n| ==> n[i] != ' '
    requires op == " = (" || op == " += ("
    ensures Parse(n + op + v + ")")
         == Some(if op == " = (" then Assign(n, v) else Increment(n, v))
  {
    var t := n + op + v + ")";
    assert t == n + [' '] + (op[1..] + v + ")");
    IndexOfAfter(n, ' ', op[1..] + v + ")");
    var rest := t[|n|..];
    assert rest == op + v + ")";
    assert t[..|n|] == n;
    assert rest[..|op|] == op;
    assert rest[|op|..|rest| - 1] == v;
    assert rest[|rest| - 1] == ')';
    if op == " += (" {
      assert rest[..4] != " = (" by { assert rest[1] == '+'; }
    }
  }

  /** Only formatted text parses: whatever `Parse` accepts, `Format` wrote. */
  lemma FormatParse(t: string, c: Command)
    requires Parse(t) == Some(c)
    ensures Format(c) == t
  {
    var k := IndexOf(t, ' ');
    if k == |t| {
      FormatParseQuery(t);
    } else {
      var name, rest := t[..k], t[k..];
      assert t == name + rest;
      assert forall i :: 0 <= i < |name| ==> name[i] != ' ';
      if |rest| >= 5 && rest[..4] == " = (" && rest[|rest| - 1] == ')' {
        FormatParseOperator(name, rest, " = (");
      } else {
        FormatParseOperator(name, rest, " += (");
      }
    }
  }

  lemma FormatParseQuery(t: string)
    requires IndexOf(t, ' ') == |t| && |t| >= 1 && t[|t| - 1] == '?'
    ensures Format(Query(t[..|t| - 1])) == t
  {
    var q := t[..|t| - 1];
    forall i | 0 <= i < |q| ensures q[i] != ' ' {
      assert q[i] == t[i];
    }
    RemoveSpacesNoSpace(q);
    assert t == q + "?";
  }

  lemma FormatParseOperator(name: string, rest: string, op: string)
    requires forall i :: 0 <= i < |name| ==> name[i] != ' '
    requires op == " = (" || op == " += ("
    requires |rest| > |op| && rest[..|op|] == op && rest[|rest| - 1] == ')'
    ensures var v := rest[|op|..|rest| - 1];
      Format(if op == " = (" then Assign(name, v) else Increment(name, v)) == name + rest
  {
    RemoveSpacesNoSpace(name);
    assert rest == op + rest[|op|..|rest| - 1] + ")";
  }

  /** Spaces in a name never reach the wire: they are as good as absent. */
  lemma FormatIgnoresNameSpaces(c: Command)
    ensures Format(c) == Format(Normalize(c))
  {
    RemoveSpacesIdempotent(c.name);
  }

  /**
   * The characters of a formatted command are those of the name without
   * its spaces, those of the value, and the operator with exactly one pair
   * of parentheses around the value.
   */
  lemma FormatCharacters(c: Command)
    ensures c.Query? ==> multiset(Format(c)) == multiset(Normalize(c).name) + multiset{'?'}
    ensures !c.Query? ==> (multiset(Format(c))
      == multiset(Normalize(c).name) + multiset(c.value)
         + multiset(if c.Assign? then " = " else " += ") + multiset{'(', ')'})
  {
  }

  /** `(command + "\n").encode()`: the bytes `write` transmits. */
  function Wire(command: string): seq<Byte>
  {
    Encode(command + "\n")
  }

  /**
   * Every formatted command goes out as its own UTF-8 bytes followed by a
   * single newline byte: the byte before the newline is not a newline, and
   * the device decodes exactly the command text and its terminator.
   */
  lemma WireFraming(c: Command)
    ensures Wire(Format(c)) == Encode(Format(c)) + [0x0A]
    ensures |Wire(Format(c))| >= 2 && Wire(Format(c))[|Wire(Format(c))| - 2] != 0x0A
    ensures Decode(Wire(Format(c))) == Some(Format(c) + "\n")
  {
    var t := Format(c);
    assert t[|t| - 1] == '?' || t[|t| - 1] == ')';
    WireOfLine(t);
  }

  /**
   * A text that ends in an ASCII character other than a newline goes out
   * as its bytes and one newline byte, and decodes back with its newline.
   */
  lemma WireOfLine(t: string)
    requires |t| >= 1 && t[|t| - 1] as int < 0x80 && t[|t| - 1] != '\n'
    ensures Wire(t) == Encode(t) + [0x0A]
    ensures |Wire(t)| >= 2 && Wire(t)[|Wire(t)| - 2] != 0x0A
    ensures Decode(Wire(t)) == Some(t + "\n")
  {
    var e := Encode(t);
    EncodeConcat(t, "\n");
    assert Wire(t) == e + [0x0A];
    EncodeEndsWith(t);
    assert Wire(t)[|Wire(t)| - 2] == e[|e| - 1];
    DecodeEncode(t + "\n");
  }
}
