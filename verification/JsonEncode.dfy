/** The JSON writer, firmware/lib/json/src/json_encode.c; je_write appends. */
module JsonEncode {

  import opened JsonText

  datatype Value =
    | Bool(b: bool)
    | Uint(u: nat)
    | Int(i: int)
    | Text(s: string)
    | Array(elements: seq<Value>)
    | Object(keys: seq<string>, values: seq<Value>)

  /** An object has a value for every key. */
  ghost predicate WellFormed(v: Value)
    decreases v
  {
    match v
    case Array(elements) => forall i :: 0 <= i < |elements| ==> WellFormed(elements[i])
    case Object(keys, values) => |keys| == |values| && forall i :: 0 <= i < |values| ==> WellFormed(values[i])
    case _ => true
  }

  function EscapedChar(c: char): (r: string)
    ensures 1 <= |r| <= 2
  {
    if c == '"' || c == '/' || c == '\\' then ['\\', c]
    else if c == '\t' then ['\\', 't']
    else if c == '\r' then ['\\', 'r']
    else if c == '\n' then ['\\', 'n']
    else if c == FORM_FEED then ['\\', 'f']
    else if c == BACKSPACE then ['\\', 'b']
    else [c]
  }

  function Escaped(s: string): string {
    if s == [] then [] else EscapedChar(s[0]) + Escaped(s[1..])
  }

  /** What is written, and the comma flag afterwards. */
  datatype Written = Written(text: string, commas: bool)

  function KeyText(key: string): string {
    "\"" + key + "\": "
  }

  function ValueText(v: Value, commas: bool): Written
    requires WellFormed(v)
    decreases v, 1, 0
  {
    match v
    case Bool(b) => Written(if b then "true" else "false", commas)
    case Uint(u) => Written(Digits(u), commas)
    case Int(i) => Written(Printed(i), commas)
    case Text(s) => Written("\"" + Escaped(s) + "\"", commas)
    case Array(_) =>
      var w := ElementsText(v, 0, commas);
      Written("[" + w.text + "]", w.commas)
    case Object(_, _) =>
      var w := EntriesText(v, 0, commas);
      Written("{" + w.text + "}", w.commas)
  }

  function ElementsText(v: Value, i: nat, commas: bool): Written
    requires v.Array? && WellFormed(v) && i <= |v.elements|
    decreases v, 0, |v.elements| - i
  {
    if i == |v.elements| then Written("", commas)
    else
      var w := ValueText(v.elements[i], commas);
      var more := ElementsText(v, i + 1, w.commas);
      Written(w.text + (if i != |v.elements| - 1 then "," else "") + more.text, more.commas)
  }

  function EntryText(key: string, v: Value, commas: bool): Written
    requires WellFormed(v)
    decreases v, 2, 0
  {
    Written((if commas then "," else "") + KeyText(key) + ValueText(v, false).text, true)
  }

  function EntriesText(v: Value, i: nat, commas: bool): Written
    requires v.Object? && WellFormed(v) && i <= |v.values|
    decreases v, 0, |v.values| - i
  {
    if i == |v.values| then Written("", commas)
    else
      var w := EntryText(v.keys[i], v.values[i], commas);
      var more := EntriesText(v, i + 1, w.commas);
      Written(w.text + more.text, more.commas)
  }

  lemma Bracketed(a: string, open: string, s: string, close: string)
    ensures a + open + s + close == a + (open + s + close)
  {
  }

  lemma {:induction false} ArrayText(v: Value, commas: bool)
    requires v.Array? && WellFormed(v)
    ensures ValueText(v, commas).text == "[" + ElementsText(v, 0, commas).text + "]"
    ensures ValueText(v, commas).commas == ElementsText(v, 0, commas).commas
    ensures forall c :: ElementsText(v, |v.elements|, c) == Written("", c)
  {
  }

  lemma ElementsStep(v: Value, i: nat, commas: bool, done: string)
    requires v.Array? && WellFormed(v) && i < |v.elements|
    ensures var w := ValueText(v.elements[i], commas);
            var more := ElementsText(v, i + 1, w.commas);
            && done + ElementsText(v, i, commas).text
               == done + w.text + (if i != |v.elements| - 1 then "," else "") + more.text
            && ElementsText(v, i, commas).commas == more.commas
  {
    var w := ValueText(v.elements[i], commas);
    var comma, more := if i != |v.elements| - 1 then "," else "", ElementsText(v, i + 1, w.commas).text;
    assert done + (w.text + comma + more) == done + w.text + comma + more;
  }

  lemma {:induction false} ObjectText(v: Value, commas: bool)
    requires v.Object? && WellFormed(v)
    ensures ValueText(v, commas).text == "{" + EntriesText(v, 0, commas).text + "}"
    ensures ValueText(v, commas).commas == EntriesText(v, 0, commas).commas
    ensures forall c :: EntriesText(v, |v.values|, c) == Written("", c)
  {
  }

  lemma EntriesStep(v: Value, i: nat, commas: bool, done: string)
    requires v.Object? && WellFormed(v) && i < |v.values|
    ensures var w, more := EntryText(v.keys[i], v.values[i], commas), EntriesText(v, i + 1, true);
            && done + EntriesText(v, i, commas).text == done + w.text + more.text
            && EntriesText(v, i, commas).commas == more.commas
  {
    var w, more := EntryText(v.keys[i], v.values[i], commas), EntriesText(v, i + 1, true).text;
    assert done + (w.text + more) == done + w.text + more;
  }

  /** An entry written while the flag is set starts with a comma; nothing else differs. */
  lemma {:induction false} CommaFirst(v: Value, i: nat)
    requires v.Object? && WellFormed(v) && i < |v.values|
    ensures EntriesText(v, i, true).text == "," + EntriesText(v, i, false).text
  {
    var w, w' := EntryText(v.keys[i], v.values[i], false), EntryText(v.keys[i], v.values[i], true);
    assert w'.text == "," + w.text;
  }

  /**
   * Objects inside an array come out malformed from the second on: the flag is
   * still set from the entries of the one before, so a comma follows the brace.
   */
  lemma {:induction false} SecondObjectStartsWithComma(v: Value, commas: bool)
    requires v.Array? && WellFormed(v) && |v.elements| == 2
    requires forall i :: 0 <= i < 2 ==> v.elements[i].Object? && |v.elements[i].values| > 0
    ensures ValueText(v, commas).text
         == "[" + ValueText(v.elements[0], commas).text + ",{," + EntriesText(v.elements[1], 0, false).text + "}]"
  {
    var a, b := v.elements[0], v.elements[1];
    FlagLeftSet(a, 0, commas);
    CommaFirst(b, 0);
    ObjectText(a, commas);
    ObjectText(b, true);
    ArrayText(v, commas);
    ElementsStep(v, 0, commas, "");
    ElementsStep(v, 1, true, "");
    hide ValueText, ElementsText, EntriesText;
  }

  lemma {:induction false} FlagLeftSet(v: Value, i: nat, commas: bool)
    requires v.Object? && WellFormed(v) && i < |v.values|
    ensures EntriesText(v, i, commas).commas
    decreases |v.values| - i
  {
    if i + 1 < |v.values| {
      FlagLeftSet(v, i + 1, true);
    }
  }

  class Encoder {
    var out: string       // what je_write has been given
    var wrCommas: bool

    constructor ()
      ensures out == "" && !wrCommas
    {
      out, wrCommas := "", false;
    }

    method Write(s: string)
      modifies this`out
      ensures out == old(out) + s
    {
      out := out + s;
    }

    method ObjectStart()
      modifies this
      ensures out == old(out) + (if old(wrCommas) then ",{" else "{") && !wrCommas
    {
      if wrCommas {
        Write(",");
        wrCommas := false;
      }
      Write("{");
      wrCommas := false;
    }

    method ObjectFinish()
      modifies this
      ensures out == old(out) + "}" && wrCommas
    {
      Write("}");
      wrCommas := true;
    }

    /** One character of a string. */
    method EncodeChar(c: char)
      modifies this`out
      ensures out == old(out) + EscapedChar(c)
    {
      if c == '"' || c == '/' || c == '\\' {
        Write("\\");
        Write([c]);
      } else if c == '\t' {
        Write("\\t");
      } else if c == '\r' {
        Write("\\r");
      } else if c == '\n' {
        Write("\\n");
      } else if c == FORM_FEED {
        Write("\\f");
      } else if c == BACKSPACE {
        Write("\\b");
      } else {
        Write([c]);
      }
    }

    method EncodeString(s: string)
      modifies this`out
      ensures out == old(out) + ("\"" + Escaped(s) + "\"")
    {
      hide EscapedChar;
      Write("\"");
      ghost var start, done := out, "";
      var i := 0;
      while i < |s|
        invariant 0 <= i <= |s|
        invariant out == start + done && done + Escaped(s[i..]) == Escaped(s)
      {
        assert s[i..][1..] == s[i + 1..];
        ghost var e := EscapedChar(s[i]);
        assert (done + e) + Escaped(s[i + 1..]) == done + (e + Escaped(s[i + 1..]));
        EncodeChar(s[i]);
        done := done + e;
        i := i + 1;
      }
      Write("\"");
    }

    method EncodeValue(v: Value)
      requires WellFormed(v)
      modifies this
      ensures out == old(out) + ValueText(v, old(wrCommas)).text
      ensures wrCommas == ValueText(v, old(wrCommas)).commas
      decreases v, 1
    {
      match v {
        case Bool(b) => Write(if b then "true" else "false");
        case Uint(u) => Write(Digits(u));
        case Int(i) => Write(Printed(i));
        case Text(s) => EncodeString(s);
        case Array(_) => EncodeElements(v);
        case Object(_, _) => EncodeEntries(v);
      }
    }

    /** An array value. */
    method EncodeElements(v: Value)
      requires v.Array? && WellFormed(v)
      modifies this
      ensures out == old(out) + ValueText(v, old(wrCommas)).text
      ensures wrCommas == ValueText(v, old(wrCommas)).commas
      decreases v, 0
    {
      hide ValueText, ElementsText;
      ArrayText(v, wrCommas);
      Write("[");
      var i := 0;
      ghost var start, done, all := out, "", ElementsText(v, 0, wrCommas);
      while i < |v.elements|
        invariant 0 <= i <= |v.elements|
        invariant out == start + done && done + ElementsText(v, i, wrCommas).text == all.text
        invariant ElementsText(v, i, wrCommas).commas == all.commas
      {
        ghost var w := ValueText(v.elements[i], wrCommas);
        ElementsStep(v, i, wrCommas, done);
        EncodeValue(v.elements[i]);
        if i != |v.elements| - 1 {
          Write(",");
        }
        done := done + w.text + (if i != |v.elements| - 1 then "," else "");
        i := i + 1;
      }
      assert done == all.text;
      Write("]");
      Bracketed(old(out), "[", done, "]");
    }

    /** An object value. */
    method EncodeEntries(v: Value)
      requires v.Object? && WellFormed(v)
      modifies this
      ensures out == old(out) + ValueText(v, old(wrCommas)).text
      ensures wrCommas == ValueText(v, old(wrCommas)).commas
      decreases v, 0
    {
      hide ValueText, EntriesText, EntryText;
      ObjectText(v, wrCommas);
      Write("{");
      var i := 0;
      ghost var start, done, all := out, "", EntriesText(v, 0, wrCommas);
      while i < |v.values|
        invariant 0 <= i <= |v.values|
        invariant out == start + done && done + EntriesText(v, i, wrCommas).text == all.text
        invariant EntriesText(v, i, wrCommas).commas == all.commas
      {
        ghost var w := EntryText(v.keys[i], v.values[i], wrCommas);
        EntriesStep(v, i, wrCommas, done);
        ObjectEntry(v.keys[i], v.values[i]);
        done := done + w.text;
        i := i + 1;
      }
      assert done == all.text;
      Write("}");
      Bracketed(old(out), "{", done, "}");
    }

    method ObjectEntry(key: string, v: Value)
      requires WellFormed(v)
      modifies this
      ensures out == old(out) + EntryText(key, v, old(wrCommas)).text && wrCommas
      decreases v, 2
    {
      hide ValueText;
      ghost var start, comma := out, if wrCommas then "," else "";
      if wrCommas {
        Write(",");
        wrCommas := false;
      }
      Write("\"");
      Write(key);
      Write("\": ");
      assert out == start + (comma + KeyText(key));
      hide KeyText;
      EncodeValue(v);
      wrCommas := true;
    }
  }
}
