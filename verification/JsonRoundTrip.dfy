/** What the JSON writer writes for a flat object, the JSON reader reads back. */
module JsonRoundTrip {

  import opened JsonText
  import opened JsonEncode
  import D = JsonDecode

  // ------------------------------------------------------------ text in the buffer

  /** The buffer holds s from a position on. */
  ghost predicate Holds(b: D.Buffer, pos: nat, s: string) {
    b.Valid() && pos + |s| <= b.last + 1 && b.text[pos..pos + |s|] == s
  }

  lemma HoldsSplit(b: D.Buffer, pos: nat, s: string, t: string)
    ensures Holds(b, pos, s + t) <==> Holds(b, pos, s) && Holds(b, pos + |s|, t)
  {
    if Holds(b, pos, s + t) {
      var u := b.text[pos..pos + |s + t|];
      assert u[..|s|] == s && u[|s|..] == t;
      assert b.text[pos..pos + |s|] == u[..|s|];
      assert b.text[pos + |s|..pos + |s| + |t|] == u[|s|..];
    }
  }

  lemma HoldsWithin(b: D.Buffer, pos: nat, s: string)
    requires Holds(b, pos, s)
    ensures b.Valid() && pos + |s| <= b.last + 1
  {
  }

  lemma HoldsHead(b: D.Buffer, pos: nat, s: string)
    requires Holds(b, pos, s) && s != ""
    ensures pos <= b.last && b.text[pos] == s[0] && b.Char(pos) == s[0] && Holds(b, pos + 1, s[1..])
  {
    assert s == [s[0]] + s[1..];
    HoldsSplit(b, pos, [s[0]], s[1..]);
    assert b.text[pos..pos + 1][0] == b.text[pos];
  }

  /** One character that only changes the state. */
  lemma OneChar(attrs: seq<D.Attr>, b: D.Buffer, m: D.Machine, pos: nat, c: char, m': D.Machine)
    requires b.Valid() && pos <= b.last && b.Char(pos) == c != NUL && D.HasCursor(attrs, m)
    requires D.Advance(attrs, m, c) == D.Next(m')
    ensures D.HasCursor(attrs, m') && D.Loop(attrs, b, m, pos) == D.Loop(attrs, b, m', pos + 1)
  {
    hide D.Advance;
  }

  // ----------------------------------------------------------------------- names

  /** Names the reader can read: short, without quotes and NUL. */
  predicate Readable(name: string) {
    |name| < D.JSON_ATTR_MAX && forall k :: 0 <= k < |name| ==> name[k] != '"' && name[k] != NUL
  }

  ghost predicate Distinct(attrs: seq<D.Attr>) {
    forall i, j :: 0 <= i < j < |attrs| ==> attrs[i].name != attrs[j].name
  }

  /** The state behind a name. */
  function Named(attrs: seq<D.Attr>, m: D.Machine, name: string): D.Machine
    requires D.FindAttr(attrs, name) < |attrs|
  {
    var i := D.FindAttr(attrs, name);
    var maxlen := if attrs[i].kind.String? then attrs[i].len - 1 else if attrs[i].kind.Boolean? then 5 else m.maxlen;
    m.(phase := D.AwaitValue, attr := name, cursor := i, maxlen := maxlen, val := "")
  }

  lemma {:induction false} ReadsName(attrs: seq<D.Attr>, b: D.Buffer, m: D.Machine, pos: nat, key: string)
    requires m.phase == D.InAttr && Holds(b, pos, key + "\"")
    requires Readable(m.attr + key) && D.FindAttr(attrs, m.attr + key) < |attrs|
    ensures D.Loop(attrs, b, m, pos) == D.Loop(attrs, b, Named(attrs, m, m.attr + key), pos + |key| + 1)
    decreases |key|
  {
    hide D.Loop;
    HoldsHead(b, pos, key + "\"");
    if key == "" {
      assert m.attr + key == m.attr;
      OneChar(attrs, b, m, pos, '"', Named(attrs, m, m.attr));
    } else {
      var c := key[0];
      assert (m.attr + key)[|m.attr|] == c;
      assert (key + "\"")[1..] == key[1..] + "\"";
      var m' := m.(attr := m.attr + [c]);
      assert m'.attr + key[1..] == m.attr + key;
      OneChar(attrs, b, m, pos, c, m');
      ReadsName(attrs, b, m', pos + 1, key[1..]);
      assert Named(attrs, m', m.attr + key) == Named(attrs, m, m.attr + key);
    }
  }

  // --------------------------------------------------------------------- strings

  ghost predicate NoNul(s: string) {
    forall k :: 0 <= k < |s| ==> s[k] != NUL
  }

  /** The escapes of the writer are undone by the reader, character by character. */
  lemma {:induction false} ReadsString(attrs: seq<D.Attr>, b: D.Buffer, m: D.Machine, pos: nat, s: string)
    requires m.phase == D.InString && m.cursor < |attrs| && Holds(b, pos, Escaped(s) + "\"") && NoNul(s)
    requires |m.val| + |s| <= D.JSON_VAL_MAX && |m.val| + |s| <= m.maxlen + 1
    ensures D.Loop(attrs, b, m, pos)
         == D.Loop(attrs, b, m.(phase := D.PostVal, val := m.val + s), pos + |Escaped(s)| + 1)
    decreases |s|
  {
    hide D.Loop, D.Advance, EscapedChar;
    if s == "" {
      assert m.val + s == m.val;
      StringEnds(attrs, b, m, pos);
    } else {
      var e := EscapedChar(s[0]);
      var m' := m.(val := m.val + [s[0]]);
      assert Escaped(s) + "\"" == e + (Escaped(s[1..]) + "\"");
      HoldsSplit(b, pos, e, Escaped(s[1..]) + "\"");
      ReadsChar(attrs, b, m, pos, s[0]);
      ReadsString(attrs, b, m', pos + |e|, s[1..]);
      assert m'.val + s[1..] == m.val + s;
    }
  }

  lemma {:induction false} StringEnds(attrs: seq<D.Attr>, b: D.Buffer, m: D.Machine, pos: nat)
    requires m.phase == D.InString && m.cursor < |attrs| && Holds(b, pos, "\"") && |m.val| <= D.JSON_VAL_MAX
    ensures D.Loop(attrs, b, m, pos) == D.Loop(attrs, b, m.(phase := D.PostVal), pos + 1)
  {
    HoldsHead(b, pos, "\"");
    OneChar(attrs, b, m, pos, '"', m.(phase := D.PostVal));
  }

  /** What the reader does with the one or two characters that stand for c. */
  lemma AdvanceChar(attrs: seq<D.Attr>, m: D.Machine, c: char)
    requires m.phase == D.InString && m.cursor < |attrs| && c != NUL
    requires |m.val| < D.JSON_VAL_MAX && |m.val| <= m.maxlen
    ensures var e, m' := EscapedChar(c), m.(val := m.val + [c]);
      && 1 <= |e| <= 2 && D.HasCursor(attrs, m) && D.HasCursor(attrs, m.(phase := D.InEscape))
      && (|e| == 1 ==> e[0] == c && D.Advance(attrs, m, c) == D.Next(m'))
      && (|e| == 2 ==>
            && e[0] == '\\' && e[1] != NUL
            && D.Advance(attrs, m, '\\') == D.Next(m.(phase := D.InEscape))
            && D.Advance(attrs, m.(phase := D.InEscape), e[1]) == D.Next(m'))
  {
  }

  lemma {:induction false} ReadsChar(attrs: seq<D.Attr>, b: D.Buffer, m: D.Machine, pos: nat, c: char)
    requires m.phase == D.InString && m.cursor < |attrs| && Holds(b, pos, EscapedChar(c)) && c != NUL
    requires |m.val| < D.JSON_VAL_MAX && |m.val| <= m.maxlen
    ensures D.Loop(attrs, b, m, pos) == D.Loop(attrs, b, m.(val := m.val + [c]), pos + |EscapedChar(c)|)
  {
    AdvanceChar(attrs, m, c);
    hide D.Loop, D.Advance, EscapedChar, Holds;
    var e, m' := EscapedChar(c), m.(val := m.val + [c]);
    HoldsWithin(b, pos, e);
    HoldsHead(b, pos, e);
    if |e| == 1 {
      OneChar(attrs, b, m, pos, c, m');
    } else {
      HoldsHead(b, pos + 1, e[1..]);
      OneChar(attrs, b, m, pos, '\\', m.(phase := D.InEscape));
      OneChar(attrs, b, m.(phase := D.InEscape), pos + 1, e[1], m');
    }
  }

  /** The memory of a string attribute holds s, terminated, exactly if there is room for the terminator. */
  ghost predicate IsText(memory: string, s: string) {
    |s| < |memory| && memory[..|s|] == s && memory[|s|] == NUL
  }

  lemma TextFitsIff(s: string, size: nat)
    ensures IsText(D.Strncpy(s, size), s) <==> |s| < size
  {
  }

  // ---------------------------------------------------------------------- tokens

  ghost predicate Plain(t: string) {
    forall k :: 0 <= k < |t| ==> !IsSpace(t[k]) && t[k] != ',' && t[k] != '}' && t[k] != NUL
  }

  lemma {:induction false} ReadsToken(attrs: seq<D.Attr>, b: D.Buffer, m: D.Machine, pos: nat, t: string, end: char)
    requires m.phase == D.InToken && m.cursor < |attrs| && Holds(b, pos, t + [end]) && Plain(t) && end in {',', '}'}
    requires |m.val| + |t| <= D.JSON_VAL_MAX
    ensures D.Loop(attrs, b, m, pos) == D.Loop(attrs, b, m.(phase := D.PostVal, val := m.val + t), pos + |t|)
    decreases |t|
  {
    hide D.Loop;
    HoldsHead(b, pos, t + [end]);
    if t == "" {
      assert m.val + t == m.val;
      TokenEnds(attrs, b, m, pos, end);
    } else {
      assert (t + [end])[1..] == t[1..] + [end];
      var m' := m.(val := m.val + [t[0]]);
      OneChar(attrs, b, m, pos, t[0], m');
      ReadsToken(attrs, b, m', pos + 1, t[1..], end);
      assert m'.val + t[1..] == m.val + t;
    }
  }

  lemma {:induction false} TokenEnds(attrs: seq<D.Attr>, b: D.Buffer, m: D.Machine, pos: nat, end: char)
    requires m.phase == D.InToken && m.cursor < |attrs| && b.Valid() && pos <= b.last
    requires b.Char(pos) == end && end in {',', '}'}
    ensures D.Loop(attrs, b, m, pos) == D.Loop(attrs, b, m.(phase := D.PostVal), pos)
  {
    assert D.Advance(attrs, m, end) == D.Unread(m.(phase := D.PostVal));
  }

  lemma PrintedIsPlain(i: int)
    ensures Plain(Printed(i)) && Printed(i) != "" && Printed(i)[0] != '"' && Printed(i)[0] != '[' && Printed(i)[0] != ':'
  {
  }

  // ---------------------------------------------------------------------- arrays

  /** An array value for a template: numbers in range, or booleans. */
  predicate ItemFits(elem: D.Elem, v: Value) {
    match elem
    case IntElem => v.Int? && -INT64_MAX - 1 <= v.i <= INT64_MAX
    case UintElem => v.Uint? && v.u <= UINT64_MAX
    case BoolElem => v.Bool?
  }

  function ItemTarget(v: Value): D.Target {
    match v
    case Int(i) => D.IntTarget(i)
    case Uint(u) => D.IntTarget(u)
    case Bool(b) => D.BoolTarget(b)
    case _ => D.TextTarget("")
  }

  function ItemTargets(vs: seq<Value>): seq<D.Target> {
    if vs == [] then [] else [ItemTarget(vs[0])] + ItemTargets(vs[1..])
  }

  ghost predicate ItemsFit(elem: D.Elem, vs: seq<Value>) {
    forall i :: 0 <= i < |vs| ==> ItemFits(elem, vs[i])
  }

  function ItemText(v: Value): string {
    match v
    case Int(i) => Printed(i)
    case Uint(u) => Digits(u)
    case Bool(b) => if b then "true" else "false"
    case _ => ""
  }

  /** The elements with commas between them and the bracket behind them. */
  function ItemsText(vs: seq<Value>): string {
    if vs == [] then "]"
    else ItemText(vs[0]) + (if |vs| == 1 then "]" else "," + ItemsText(vs[1..]))
  }

  lemma {:induction false} WriterWritesItems(v: Value, elem: D.Elem, i: nat, commas: bool)
    requires v.Array? && WellFormed(v) && ItemsFit(elem, v.elements) && i <= |v.elements|
    ensures ElementsText(v, i, commas).text + "]" == ItemsText(v.elements[i..])
    decreases |v.elements| - i
  {
    var vs := v.elements[i..];
    if i < |v.elements| {
      assert ItemFits(elem, v.elements[i]);
      ItemIsWritten(elem, v.elements[i], commas);
      hide ItemsFit, ItemFits, ItemText, ItemTarget, ValueText, WellFormed, ElementsText, ItemsText;
      assert vs[1..] == v.elements[i + 1..];
      WriterWritesItems(v, elem, i + 1, commas);
      if |vs| == 1 {
        LastItem(vs);
        WritesLast(v, i, commas, ItemText(vs[0]));
      } else {
        MoreItems(vs, []);
        WritesMore(v, i, commas, ItemText(vs[0]), ItemsText(vs[1..]));
      }
    }
  }

  lemma {:induction false} WritesLast(v: Value, i: nat, commas: bool, t: string)
    requires v.Array? && WellFormed(v) && i + 1 == |v.elements|
    requires ValueText(v.elements[i], commas) == Written(t, commas)
    ensures ElementsText(v, i, commas).text + "]" == t + [']']
  {
    hide ValueText;
  }

  lemma WritesMore(v: Value, i: nat, commas: bool, t: string, rest: string)
    requires v.Array? && WellFormed(v) && i + 1 < |v.elements|
    requires ValueText(v.elements[i], commas) == Written(t, commas)
    requires ElementsText(v, i + 1, commas).text + "]" == rest
    ensures ElementsText(v, i, commas).text + "]" == (t + [',']) + rest
  {
    hide ValueText;
    var more := ElementsText(v, i + 1, commas).text;
    assert ElementsText(v, i, commas).text == t + "," + more;
    assert t + "," + more + "]" == (t + [',']) + (more + "]");
  }

  lemma {:induction false} ItemIsWritten(elem: D.Elem, v: Value, commas: bool)
    requires ItemFits(elem, v)
    ensures WellFormed(v) && ValueText(v, commas) == Written(ItemText(v), commas)
  {
  }

  lemma ItemIsShort(elem: D.Elem, v: Value)
    requires ItemFits(elem, v)
    ensures 0 < |ItemText(v)| <= 21 && !IsSpace(ItemText(v)[0]) && ItemText(v)[0] != ']'
  {
    match v
    case Int(i) => PrintedIsShort(i);
    case Uint(u) => PrintedIsShort(u);
    case Bool(_) =>
  }

  /** An element is read back from any text that goes on with a comma or a bracket, or stops there. */
  lemma ReadsItem(elem: D.Elem, v: Value, rest: string)
    requires ItemFits(elem, v) && (rest == "" || rest[0] in {',', ']'})
    ensures D.ReadItem(elem, ItemText(v) + rest) == D.Item(D.Ok, ItemTarget(v), |ItemText(v)|)
  {
    match v
    case Int(i) => StrToLlPrinted(i, rest);
    case Uint(u) => StrToUllPrinted(u, rest);
    case Bool(b) =>
      var s := ItemText(v) + rest;
      assert s[..4] == if b then "true" else "fals";
      assert !b ==> s[..5] == "false";
  }

  /** What json_readn hands over starts with the element. */
  lemma ItemAhead(b: D.Buffer, pos: nat, t: string, sep: char, size: nat) returns (rest: string)
    requires Holds(b, pos, t + [sep]) && |t| <= size
    ensures b.Some(pos, size) == t + rest && (rest == "" || rest[0] == sep)
  {
    var s := b.Some(pos, size);
    HoldsSplit(b, pos, t, [sep]);
    HoldsHead(b, pos + |t|, [sep]);
    rest := s[|t|..];
    assert s[..|t|] == b.text[pos..pos + |t|] == t;
    if rest != "" {
      assert s[|t|] == b.text[pos + |t|];
    }
  }

  lemma {:induction false} NoSpace(b: D.Buffer, pos: nat)
    requires b.Valid() && pos <= b.last && !IsSpace(b.text[pos])
    ensures D.SkipWs(b, pos) == pos
  {
  }

  /** Around an element there is nothing to skip. */
  lemma AroundItem(b: D.Buffer, pos: nat, t: string, sep: char)
    requires Holds(b, pos, t + [sep]) && t != "" && !IsSpace(t[0]) && !IsSpace(sep)
    ensures D.SkipWs(b, pos) == pos && pos <= b.last
    ensures D.SkipWs(b, pos + |t|) == pos + |t| <= b.last && b.text[pos + |t|] == sep
  {
    assert (t + [sep])[0] == t[0];
    HoldsHead(b, pos, t + [sep]);
    NoSpace(b, pos);
    HoldsSplit(b, pos, t, [sep]);
    HoldsHead(b, pos + |t|, [sep]);
    NoSpace(b, pos + |t|);
  }

  lemma ElementFound(b: D.Buffer, elem: D.Elem, pos: nat, t: string, sep: char, item: D.Item, rest: string)
    requires b.Valid() && pos + |t| <= b.last && D.SkipWs(b, pos) == pos
    requires D.SkipWs(b, pos + |t|) == pos + |t| && b.text[pos + |t|] == sep
    requires b.Some(pos, D.ItemSize(elem)) == t + rest && D.ReadItem(elem, t + rest) == item
    requires item.error == D.Ok && item.used == |t|
    ensures D.ElementAt(b, elem, pos) == D.Element(item, sep, pos + |t| + 1)
  {
    hide D.SkipWs, D.ReadItem, D.ItemSize;
  }

  lemma ReadsElement(b: D.Buffer, elem: D.Elem, pos: nat, v: Value, sep: char)
    requires ItemFits(elem, v) && sep in {',', ']'} && Holds(b, pos, ItemText(v) + [sep])
    ensures D.ElementAt(b, elem, pos)
         == D.Element(D.Item(D.Ok, ItemTarget(v), |ItemText(v)|), sep, pos + |ItemText(v)| + 1)
  {
    var t := ItemText(v);
    ItemIsShort(elem, v);
    ItemSizeSuffices(elem, v);
    hide ItemText, ItemTarget, ItemFits, D.ReadItem, D.SkipWs, D.ItemSize, D.ElementAt;
    AroundItem(b, pos, t, sep);
    var rest := ItemAhead(b, pos, t, sep, D.ItemSize(elem));
    ReadsItem(elem, v, rest);
    ElementFound(b, elem, pos, t, sep, D.Item(D.Ok, ItemTarget(v), |t|), rest);
  }

  lemma ItemSizeSuffices(elem: D.Elem, v: Value)
    requires ItemFits(elem, v)
    ensures |ItemText(v)| <= D.ItemSize(elem)
  {
    ItemIsShort(elem, v);
  }

  /** The elements, up to the bracket; or one too many. */
  lemma {:induction false} ReadsItems(b: D.Buffer, elem: D.Elem, maxlen: nat, pos: nat, vs: seq<Value>,
                                      items: seq<D.Target>)
    requires vs != [] && ItemsFit(elem, vs) && Holds(b, pos, ItemsText(vs))
    ensures |items| + |vs| <= maxlen ==>
              D.Elements(b, elem, maxlen, pos, items)
              == D.ArrayResult(D.Ok, items + ItemTargets(vs), pos + |ItemsText(vs)|)
    ensures |items| + |vs| > maxlen ==> D.Elements(b, elem, maxlen, pos, items).status == D.Err(D.SubTooLong)
    decreases |vs|
  {
    hide ItemText, ItemTarget, ItemsText, ItemTargets, ItemsFit, ItemFits, D.ElementAt, Holds;
    if |items| < maxlen {
      var v, t := vs[0], ItemText(vs[0]);
      TailFits(elem, vs);
      if |vs| == 1 {
        LastItem(vs);
        ReadsElement(b, elem, pos, v, ']');
      } else {
        MoreItems(vs, items);
        HoldsSplit(b, pos, t + [','], ItemsText(vs[1..]));
        ReadsElement(b, elem, pos, v, ',');
        ReadsItems(b, elem, maxlen, pos + |t| + 1, vs[1..], items + [ItemTarget(v)]);
      }
    }
  }

  lemma TailFits(elem: D.Elem, vs: seq<Value>)
    requires ItemsFit(elem, vs) && vs != []
    ensures ItemFits(elem, vs[0]) && ItemsFit(elem, vs[1..])
  {
  }

  lemma {:induction false} LastItem(vs: seq<Value>)
    requires |vs| == 1
    ensures ItemsText(vs) == ItemText(vs[0]) + [']'] && ItemTargets(vs) == [ItemTarget(vs[0])]
  {
    assert vs[1..] == [];
  }

  lemma {:induction false} MoreItems(vs: seq<Value>, items: seq<D.Target>)
    requires |vs| > 1
    ensures ItemsText(vs) == (ItemText(vs[0]) + [',']) + ItemsText(vs[1..])
    ensures items + [ItemTarget(vs[0])] + ItemTargets(vs[1..]) == items + ItemTargets(vs)
  {
    hide ItemText, ItemTarget;
    assert ItemTargets(vs) == [ItemTarget(vs[0])] + ItemTargets(vs[1..]);
    Regroup(items, [ItemTarget(vs[0])], ItemTargets(vs[1..]));
  }

  lemma Regroup<T>(a: seq<T>, b: seq<T>, c: seq<T>)
    ensures a + b + c == a + (b + c)
  {
  }

  /** An array is read back, to its end, exactly if it is not empty and not longer than the template's. */
  lemma {:induction false} ArrayReadBackIff(b: D.Buffer, elem: D.Elem, maxlen: nat, pos: nat, vs: seq<Value>)
    requires ItemsFit(elem, vs) && Holds(b, pos, "[" + ItemsText(vs))
    ensures D.ArrayAt(b, elem, maxlen, pos)
         == D.ArrayResult(D.Ok, ItemTargets(vs), pos + 1 + |ItemsText(vs)|)
        <==> 1 <= |vs| <= maxlen
  {
    hide D.SkipWs, D.Elements, ItemsText, ItemTargets, ItemsFit;
    FirstOfItems(elem, vs);
    var t := ItemsText(vs);
    ArrayOpens(b, pos, t);
    hide Holds;
    if vs != [] {
      ReadsItems(b, elem, maxlen, pos + 1, vs, []);
      assert [] + ItemTargets(vs) == ItemTargets(vs);
    }
  }

  /** The bracket, and nothing to skip behind it. */
  lemma ArrayOpens(b: D.Buffer, pos: nat, t: string)
    requires Holds(b, pos, "[" + t) && t != "" && !IsSpace(t[0])
    ensures D.SkipWs(b, pos) == pos <= b.last && b.Char(pos) == '['
    ensures D.SkipWs(b, pos + 1) == pos + 1 <= b.last && b.text[pos + 1] == t[0] && Holds(b, pos + 1, t)
  {
    HoldsHead(b, pos, "[" + t);
    NoSpace(b, pos);
    assert ("[" + t)[1..] == t;
    HoldsHead(b, pos + 1, t);
    NoSpace(b, pos + 1);
  }

  lemma {:induction false} FirstOfItems(elem: D.Elem, vs: seq<Value>)
    requires ItemsFit(elem, vs)
    ensures ItemsText(vs) != "" && !IsSpace(ItemsText(vs)[0]) && (ItemsText(vs)[0] == ']' <==> vs == [])
    ensures vs == [] ==> |ItemsText(vs)| == 1
  {
    if vs != [] {
      assert ItemFits(elem, vs[0]);
      ItemIsShort(elem, vs[0]);
    }
  }

  // ---------------------------------------------------------------------- values

  /** A value that its template can hold. */
  ghost predicate Fits(attr: D.Attr, v: Value) {
    match v
    case Bool(_) => attr.kind.Boolean?
    case Int(i) => attr.kind.Integer? && -INT64_MAX - 1 <= i <= INT64_MAX
    case Uint(u) => attr.kind.Uinteger? && u <= UINT64_MAX
    case Text(s) => attr.kind.String? && NoNul(s) && |s| < attr.len && |s| <= D.JSON_VAL_MAX
    case Array(vs) => attr.kind.ArrayOf? && ItemsFit(attr.kind.elem, vs) && 1 <= |vs| <= attr.kind.maxlen
    case Object(_, _) => false
  }

  /** What the reader stores for it. */
  ghost function Expected(attr: D.Attr, v: Value): D.Target {
    match v
    case Bool(b) => D.BoolTarget(b)
    case Int(i) => D.IntTarget(i)
    case Uint(u) => D.IntTarget(u)
    case Text(s) => D.TextTarget(D.Strncpy(s, attr.len))
    case Array(vs) => D.ArrayTarget(ItemTargets(vs))
    case Object(_, _) => D.TextTarget("")
  }

  /** Having read a name whose template is the one under the cursor. */
  ghost predicate AtValue(attrs: seq<D.Attr>, m: D.Machine) {
    && Distinct(attrs) && m.cursor < |attrs| && m.attr == attrs[m.cursor].name
  }

  /** How reading goes on behind a value and the character after it. */
  ghost predicate GoesOn(attrs: seq<D.Attr>, b: D.Buffer, r: D.Result, store: map<nat, D.Target>, end: char, pos: nat,
                         m: D.Machine)
    requires b.Valid() && pos <= b.last + 1
  {
    if end == '}' then r == D.Result(D.Ok, store)
    else m.phase == D.AwaitAttr && m.store == store && r == D.Loop(attrs, b, m, pos)
  }

  lemma {:induction false} SeekStays(attrs: seq<D.Attr>, m: D.Machine)
    requires AtValue(attrs, m)
    ensures D.Seek(attrs, m, m.cursor) == m.cursor
  {
  }

  /** Behind a scalar. */
  lemma AfterScalar(attrs: seq<D.Attr>, b: D.Buffer, m: D.Machine, pos: nat, end: char, target: D.Target)
    returns (m': D.Machine)
    requires AtValue(attrs, m) && m.phase == D.PostVal && !attrs[m.cursor].kind.ArrayOf?
    requires m.quoted <==> attrs[m.cursor].kind.String?
    requires b.Valid() && pos <= b.last && b.Char(pos) == end && end in {',', '}'}
    requires D.Stored(attrs[m.cursor], m.val) == target
    ensures GoesOn(attrs, b, D.Loop(attrs, b, m, pos), m.store[m.cursor := target], end, pos + 1, m')
  {
    hide D.Stored;
    SeekStays(attrs, m);
    m' := m.(phase := D.AwaitAttr, store := m.store[m.cursor := target]);
    assert D.Advance(attrs, m, end) == D.AfterValue(attrs, m, end);
  }

  /** A number or a boolean. */
  lemma ReadsScalar(attrs: seq<D.Attr>, b: D.Buffer, m: D.Machine, pos: nat, t: string, end: char, target: D.Target)
    returns (m': D.Machine)
    requires AtValue(attrs, m) && m.phase == D.AwaitValue
    requires !attrs[m.cursor].kind.ArrayOf? && !attrs[m.cursor].kind.String?
    requires Plain(t) && 0 < |t| <= D.JSON_VAL_MAX && t[0] != '"' && t[0] != '[' && t[0] != ':'
    requires Holds(b, pos, t + [end]) && end in {',', '}'} && D.Stored(attrs[m.cursor], t) == target
    ensures GoesOn(attrs, b, D.Loop(attrs, b, m, pos), m.store[m.cursor := target], end, pos + |t| + 1, m')
  {
    hide D.Loop, D.Stored, Distinct;
    HoldsSplit(b, pos, t, [end]);
    HoldsHead(b, pos + |t|, [end]);
    assert (t + [end])[1..] == t[1..] + [end] && (t + [end])[0] == t[0];
    HoldsHead(b, pos, t + [end]);
    var m1 := m.(phase := D.InToken, quoted := false, val := [t[0]]);
    OneChar(attrs, b, m, pos, t[0], m1);
    ReadsToken(attrs, b, m1, pos + 1, t[1..], end);
    assert [t[0]] + t[1..] == t;
    var m2 := m1.(phase := D.PostVal, val := t);
    m' := AfterScalar(attrs, b, m2, pos + |t|, end, target);
    hide GoesOn;
  }

  lemma TextPieces(b: D.Buffer, pos: nat, body: string, end: char)
    requires Holds(b, pos, "\"" + body + "\"" + [end])
    ensures b.Valid() && pos <= b.last && b.Char(pos) == '"'
    ensures Holds(b, pos + 1, body + "\"") && Holds(b, pos + 1, body + "\"" + [end])
  {
    var quote, t := "\"", body + "\"";
    HoldsWithin(b, pos, quote + body + "\"" + [end]);
    hide Holds;
    assert quote + body + "\"" + [end] == quote + (t + [end]);
    HoldsSplit(b, pos, quote, t + [end]);
    HoldsSplit(b, pos + 1, t, [end]);
    HoldsHead(b, pos, quote);
  }

  lemma ReadsText(attrs: seq<D.Attr>, b: D.Buffer, m: D.Machine, pos: nat, s: string, end: char)
    returns (m': D.Machine)
    requires AtValue(attrs, m) && m.phase == D.AwaitValue && Fits(attrs[m.cursor], Text(s))
    requires m.maxlen == attrs[m.cursor].len - 1
    requires Holds(b, pos, "\"" + Escaped(s) + "\"" + [end]) && end in {',', '}'}
    ensures GoesOn(attrs, b, D.Loop(attrs, b, m, pos), m.store[m.cursor := Expected(attrs[m.cursor], Text(s))], end,
                   pos + |"\"" + Escaped(s) + "\""| + 1, m')
  {
    hide D.Loop, Distinct, Escaped, Holds;
    var t := Escaped(s) + "\"";
    TextPieces(b, pos, Escaped(s), end);
    BehindPiece(b, pos + 1, t, end);
    var m1 := m.(phase := D.InString, quoted := true, val := "");
    OneChar(attrs, b, m, pos, '"', m1);
    hide D.Advance;
    ReadsString(attrs, b, m1, pos + 1, s);
    assert "" + s == s;
    var m2 := m1.(phase := D.PostVal, val := s);
    m' := AfterScalar(attrs, b, m2, pos + 1 + |t|, end, Expected(attrs[m.cursor], Text(s)));
    hide GoesOn;
  }

  lemma ReadsArray(attrs: seq<D.Attr>, b: D.Buffer, m: D.Machine, pos: nat, vs: seq<Value>, end: char)
    returns (m': D.Machine)
    requires AtValue(attrs, m) && m.phase == D.AwaitValue && Fits(attrs[m.cursor], Array(vs))
    requires Holds(b, pos, "[" + ItemsText(vs) + [end]) && end in {',', '}'}
    ensures GoesOn(attrs, b, D.Loop(attrs, b, m, pos), m.store[m.cursor := D.ArrayTarget(ItemTargets(vs))], end,
                   pos + |"[" + ItemsText(vs)| + 1, m')
  {
    hide Distinct, D.Loop, GoesOn, ItemsText, ItemTargets, Holds, ItemsFit;
    var t, kind, targets := "[" + ItemsText(vs), attrs[m.cursor].kind, ItemTargets(vs);
    BehindPiece(b, pos, t, end);
    var m1 := m.(phase := D.PostArray, store := m.store[m.cursor := D.ArrayTarget(targets)]);
    ReadsItemsAt(attrs, b, m, pos, vs, t, m1, kind.elem, kind.maxlen, targets);
    m' := AfterArray(attrs, b, m1, pos + |t|, end);
  }

  lemma ReadsItemsAt(attrs: seq<D.Attr>, b: D.Buffer, m: D.Machine, pos: nat, vs: seq<Value>, t: string, m1: D.Machine,
                     elem: D.Elem, maxlen: nat, targets: seq<D.Target>)
    requires m.cursor < |attrs| && m.phase == D.AwaitValue && attrs[m.cursor].kind == D.ArrayOf(elem, maxlen)
    requires ItemsFit(elem, vs) && 1 <= |vs| <= maxlen && targets == ItemTargets(vs)
    requires t == "[" + ItemsText(vs) && Holds(b, pos, t)
    requires m1 == m.(phase := D.PostArray, store := m.store[m.cursor := D.ArrayTarget(targets)])
    ensures pos + |t| <= b.last + 1 && D.Loop(attrs, b, m, pos) == D.Loop(attrs, b, m1, pos + |t|)
  {
    hide ItemTargets, ItemsText, ItemsFit, D.ArrayAt, D.Loop;
    ArrayReadBackIff(b, elem, maxlen, pos, vs);
    HoldsHead(b, pos, t);
    NestedStep(attrs, b, m, pos, m1, pos + |t|);
  }

  lemma BehindPiece(b: D.Buffer, pos: nat, t: string, end: char)
    requires Holds(b, pos, t + [end]) && t != ""
    ensures b.Valid() && pos + |t| <= b.last && b.Char(pos + |t|) == end
    ensures Holds(b, pos, t) && b.Char(pos) == t[0]
  {
    HoldsSplit(b, pos, t, [end]);
    HoldsHead(b, pos, t);
    HoldsHead(b, pos + |t|, [end]);
  }

  lemma AfterArray(attrs: seq<D.Attr>, b: D.Buffer, m: D.Machine, pos: nat, end: char) returns (m': D.Machine)
    requires m.phase == D.PostArray && m.cursor < |attrs|
    requires b.Valid() && pos <= b.last && b.Char(pos) == end && end in {',', '}'}
    ensures GoesOn(attrs, b, D.Loop(attrs, b, m, pos), m.store, end, pos + 1, m')
  {
    m' := m.(phase := D.AwaitAttr);
    assert D.Advance(attrs, m, end) == D.Trail(m, end);
  }

  lemma {:induction false} NestedStep(attrs: seq<D.Attr>, b: D.Buffer, m: D.Machine, pos: nat, m1: D.Machine, pos1: nat)
    requires m.phase == D.AwaitValue && m.cursor < |attrs| && attrs[m.cursor].kind.ArrayOf?
    requires b.Valid() && pos <= b.last && b.Char(pos) == '['
    requires var kind := attrs[m.cursor].kind;
             var r := D.ArrayAt(b, kind.elem, kind.maxlen, pos);
             && r.status == D.Ok && r.pos == pos1
             && m1 == m.(phase := D.PostArray, store := m.store[m.cursor := D.ArrayTarget(r.items)])
    ensures pos1 <= b.last + 1 && D.Loop(attrs, b, m, pos) == D.Loop(attrs, b, m1, pos1)
  {
    hide D.ArrayAt;
    assert D.Advance(attrs, m, '[') == D.Nested(m.(phase := D.PostArray));
  }

  /** Any value, with the comma or the brace behind it. */
  lemma ReadsValue(attrs: seq<D.Attr>, b: D.Buffer, m: D.Machine, pos: nat, v: Value, end: char)
    returns (m': D.Machine)
    requires WellFormed(v) && AtValue(attrs, m) && m.phase == D.AwaitValue && Fits(attrs[m.cursor], v)
    requires attrs[m.cursor].kind.String? ==> m.maxlen == attrs[m.cursor].len - 1
    requires Holds(b, pos, ValueText(v, false).text + [end]) && end in {',', '}'}
    ensures pos + |ValueText(v, false).text| + 1 <= b.last + 1
    ensures GoesOn(attrs, b, D.Loop(attrs, b, m, pos), m.store[m.cursor := Expected(attrs[m.cursor], v)], end,
                   pos + |ValueText(v, false).text| + 1, m')
  {
    hide D.Loop, GoesOn, Distinct, Holds, ItemsText, Escaped, D.Strncpy;
    var attr := attrs[m.cursor];
    match v
    case Text(s) =>
      m' := ReadsText(attrs, b, m, pos, s, end);
      BehindPiece(b, pos, ValueText(v, false).text, end);
    case Array(vs) =>
      ArrayIsItems(attr, v);
      m' := ReadsArray(attrs, b, m, pos, vs, end);
      BehindPiece(b, pos, ValueText(v, false).text, end);
    case Bool(_) => m' := ReadsScalarValue(attrs, b, m, pos, v, ValueText(v, false).text, end, Expected(attr, v));
    case Int(_) => m' := ReadsScalarValue(attrs, b, m, pos, v, ValueText(v, false).text, end, Expected(attr, v));
    case Uint(_) => m' := ReadsScalarValue(attrs, b, m, pos, v, ValueText(v, false).text, end, Expected(attr, v));
  }

  lemma ReadsScalarValue(attrs: seq<D.Attr>, b: D.Buffer, m: D.Machine, pos: nat, v: Value, t: string, end: char,
                         target: D.Target)
    returns (m': D.Machine)
    requires WellFormed(v) && AtValue(attrs, m) && m.phase == D.AwaitValue && Fits(attrs[m.cursor], v)
    requires (v.Bool? || v.Int? || v.Uint?) && t == ValueText(v, false).text && target == Expected(attrs[m.cursor], v)
    requires Holds(b, pos, t + [end]) && end in {',', '}'}
    ensures pos + |t| + 1 <= b.last + 1
    ensures GoesOn(attrs, b, D.Loop(attrs, b, m, pos), m.store[m.cursor := target], end, pos + |t| + 1, m')
  {
    hide D.Loop, GoesOn, Distinct;
    ScalarText(attrs[m.cursor], v);
    hide ValueText, Expected, Fits, WellFormed, D.Stored;
    m' := ReadsScalar(attrs, b, m, pos, t, end, target);
    BehindPiece(b, pos, t, end);
  }

  /** A number or a boolean as written is a token that is stored as itself. */
  lemma {:induction false} ScalarText(attr: D.Attr, v: Value)
    requires WellFormed(v) && Fits(attr, v) && (v.Bool? || v.Int? || v.Uint?)
    ensures !attr.kind.ArrayOf? && !attr.kind.String?
    ensures var t := ValueText(v, false).text;
            && Plain(t) && 0 < |t| <= D.JSON_VAL_MAX && t[0] != '"' && t[0] != '[' && t[0] != ':'
            && D.Stored(attr, t) == Expected(attr, v)
  {
    match v
    case Bool(_) =>
    case Int(i) =>
      PrintedIsPlain(i);
      PrintedIsShort(i);
      StrToLlPrinted(i, "");
      assert Printed(i) + "" == Printed(i);
    case Uint(u) =>
      PrintedIsPlain(u);
      PrintedIsShort(u);
      StrToUllPrinted(u, "");
      assert Digits(u) + "" == Digits(u);
  }

  lemma {:induction false} ArrayIsItems(attr: D.Attr, v: Value)
    requires v.Array? && WellFormed(v) && Fits(attr, v)
    ensures ValueText(v, false).text == "[" + ItemsText(v.elements)
  {
    ArrayText(v, false);
    WriterWritesItems(v, attr.kind.elem, 0, false);
    assert v.elements[0..] == v.elements;
  }

  // --------------------------------------------------------------------- objects

  datatype Entry = Entry(key: string, value: Value)

  /** Every entry has a template of its name that can hold its value. */
  ghost predicate AllFit(attrs: seq<D.Attr>, entries: seq<Entry>) {
    forall k :: 0 <= k < |entries| ==> EntryFits(attrs, entries[k])
  }

  ghost predicate EntryFits(attrs: seq<D.Attr>, e: Entry) {
    && Readable(e.key) && WellFormed(e.value)
    && D.FindAttr(attrs, e.key) < |attrs| && Fits(attrs[D.FindAttr(attrs, e.key)], e.value)
  }

  /** What is in the store once the entries have been read. */
  ghost function Filled(attrs: seq<D.Attr>, store: map<nat, D.Target>, entries: seq<Entry>): map<nat, D.Target>
    requires AllFit(attrs, entries)
    decreases |entries|
  {
    if entries == [] then store
    else
      assert EntryFits(attrs, entries[0]);
      Filled(attrs, Filling(attrs, store, entries[0]), entries[1..])
  }

  ghost function Filling(attrs: seq<D.Attr>, store: map<nat, D.Target>, e: Entry): map<nat, D.Target>
    requires EntryFits(attrs, e)
  {
    var i := D.FindAttr(attrs, e.key);
    store[i := Expected(attrs[i], e.value)]
  }

  /** The entries as written, and the closing brace. */
  ghost function Body(attrs: seq<D.Attr>, entries: seq<Entry>): string
    requires AllFit(attrs, entries)
    decreases |entries|
  {
    if entries == [] then "}"
    else
      assert EntryFits(attrs, entries[0]);
      EntryText(entries[0].key, entries[0].value, false).text
      + (if |entries| == 1 then "}" else "," + Body(attrs, entries[1..]))
  }

  lemma ReadsEntry(attrs: seq<D.Attr>, b: D.Buffer, m: D.Machine, pos: nat, e: Entry, end: char) returns (m': D.Machine)
    requires Distinct(attrs) && EntryFits(attrs, e) && m.phase == D.AwaitAttr && end in {',', '}'}
    requires Holds(b, pos, EntryText(e.key, e.value, false).text + [end])
    ensures pos + |EntryText(e.key, e.value, false).text| + 1 <= b.last + 1
    ensures GoesOn(attrs, b, D.Loop(attrs, b, m, pos), Filling(attrs, m.store, e), end,
                   pos + |EntryText(e.key, e.value, false).text| + 1, m')
  {
    hide D.Loop, GoesOn, Distinct, ValueText, Fits, Expected;
    var t, v := KeyText(e.key), ValueText(e.value, false).text;
    assert EntryText(e.key, e.value, false).text == t + v;
    assert t + v + [end] == t + (v + [end]);
    HoldsSplit(b, pos, t, v + [end]);
    var m1 := ReadsKey(attrs, b, m, pos, e.key);
    m' := ReadsValue(attrs, b, m1, pos + |t|, e.value, end);
  }

  /** From the quote before a name to the value. */
  lemma ReadsKey(attrs: seq<D.Attr>, b: D.Buffer, m: D.Machine, pos: nat, key: string) returns (m1: D.Machine)
    requires Distinct(attrs) && Readable(key) && D.FindAttr(attrs, key) < |attrs| && m.phase == D.AwaitAttr
    requires Holds(b, pos, KeyText(key))
    ensures AtValue(attrs, m1) && m1.phase == D.AwaitValue && m1.cursor == D.FindAttr(attrs, key) && m1.store == m.store
    ensures attrs[m1.cursor].kind.String? ==> m1.maxlen == attrs[m1.cursor].len - 1
    ensures D.Loop(attrs, b, m, pos) == D.Loop(attrs, b, m1, pos + |KeyText(key)|)
  {
    hide D.Loop, Distinct, D.FindAttr, KeyText;
    KeyPieces(b, pos, key);
    hide Holds;
    var m0 := m.(phase := D.InAttr, attr := "");
    OneChar(attrs, b, m, pos, '"', m0);
    assert "" + key == key;
    ReadsName(attrs, b, m0, pos + 1, key);
    m1 := Named(attrs, m0, key);
    OneChar(attrs, b, m1, pos + 1 + |key| + 1, ':', m1);
    OneChar(attrs, b, m1, pos + 1 + |key| + 2, ' ', m1);
  }

  lemma KeyPieces(b: D.Buffer, pos: nat, key: string)
    requires Holds(b, pos, KeyText(key))
    ensures b.Valid() && |KeyText(key)| == |key| + 4 && pos + |key| + 3 <= b.last
    ensures b.Char(pos) == '"' && Holds(b, pos + 1, key + "\"")
    ensures b.Char(pos + 1 + |key| + 1) == ':' && b.Char(pos + 1 + |key| + 2) == ' '
  {
    var quote, colon := "\"", ": ";
    HoldsWithin(b, pos, KeyText(key));
    hide Holds;
    assert KeyText(key) == quote + ((key + "\"") + colon);
    HoldsSplit(b, pos, quote, (key + "\"") + colon);
    HoldsSplit(b, pos + 1, key + "\"", colon);
    HoldsHead(b, pos, quote);
    HoldsHead(b, pos + 1 + |key| + 1, colon);
    HoldsHead(b, pos + 1 + |key| + 2, " ");
  }

  lemma {:induction false} ReadsBody(attrs: seq<D.Attr>, b: D.Buffer, m: D.Machine, pos: nat, entries: seq<Entry>)
    requires Distinct(attrs) && AllFit(attrs, entries) && entries != [] && m.phase == D.AwaitAttr
    requires Holds(b, pos, Body(attrs, entries))
    ensures D.Loop(attrs, b, m, pos) == D.Result(D.Ok, Filled(attrs, m.store, entries))
    decreases |entries|
  {
    hide D.Loop, Distinct, EntryText, Holds;
    var e, more := entries[0], entries[1..];
    assert EntryFits(attrs, e);
    hide EntryFits;
    var t := EntryText(e.key, e.value, false).text;
    if |entries| == 1 {
      assert Body(attrs, entries) == t + ['}'];
      var m' := ReadsEntry(attrs, b, m, pos, e, '}');
    } else {
      assert Body(attrs, entries) == (t + [',']) + Body(attrs, more);
      HoldsSplit(b, pos, t + [','], Body(attrs, more));
      var m' := ReadsEntry(attrs, b, m, pos, e, ',');
      ReadsBody(attrs, b, m', pos + |t| + 1, more);
    }
  }

  /** An attribute is found under its name, and under no other. */
  lemma {:induction false} FilledElsewhere(attrs: seq<D.Attr>, store: map<nat, D.Target>, entries: seq<Entry>, i: nat)
    requires AllFit(attrs, entries) && forall k :: 0 <= k < |entries| ==> D.FindAttr(attrs, entries[k].key) != i
    ensures i in Filled(attrs, store, entries) <==> i in store
    ensures i in store ==> Filled(attrs, store, entries)[i] == store[i]
    decreases |entries|
  {
    if entries != [] {
      assert EntryFits(attrs, entries[0]);
      assert D.FindAttr(attrs, entries[0].key) != i;
      FilledElsewhere(attrs, Filling(attrs, store, entries[0]), entries[1..], i);
    }
  }

  ghost predicate DistinctKeys(entries: seq<Entry>) {
    forall i, j :: 0 <= i < j < |entries| ==> entries[i].key != entries[j].key
  }

  /** With distinct keys each attribute ends up with the value of its entry. */
  lemma {:induction false} FilledAt(attrs: seq<D.Attr>, store: map<nat, D.Target>, entries: seq<Entry>, k: nat)
    requires AllFit(attrs, entries) && DistinctKeys(entries) && k < |entries|
    ensures EntryFits(attrs, entries[k])
    ensures var i := D.FindAttr(attrs, entries[k].key);
            && i in Filled(attrs, store, entries)
            && Filled(attrs, store, entries)[i] == Expected(attrs[i], entries[k].value)
    decreases |entries|
  {
    assert EntryFits(attrs, entries[k]);
    assert EntryFits(attrs, entries[0]);
    var next, more := Filling(attrs, store, entries[0]), entries[1..];
    if k == 0 {
      var i := D.FindAttr(attrs, entries[0].key);
      forall j | 0 <= j < |more|
        ensures D.FindAttr(attrs, more[j].key) != i
      {
        assert EntryFits(attrs, entries[j + 1]);
      }
      FilledElsewhere(attrs, next, more, i);
    } else {
      FilledAt(attrs, next, more, k - 1);
    }
  }

  /**
   * Decoding an encoded object recovers every value: attribute by attribute the
   * store holds what was written, and nothing for attributes that do not occur.
   * The brace of an empty object does not end the reading; a NUL or the end
   * of the buffer must.
   */
  lemma {:induction false} ObjectRoundTrip(attrs: seq<D.Attr>, b: D.Buffer, entries: seq<Entry>)
    requires Distinct(attrs) && AllFit(attrs, entries) && DistinctKeys(entries)
    requires Holds(b, 0, "{" + Body(attrs, entries)) && (entries == [] ==> b.Char(2) == NUL)
    ensures var r := D.ReadObject(attrs, b);
            && r.status == D.Ok
            && (forall k :: 0 <= k < |entries| ==>
                  var i := D.FindAttr(attrs, entries[k].key);
                  i < |attrs| && i in r.store && r.store[i] == Expected(attrs[i], entries[k].value))
            && (forall i :: i in r.store ==> exists k :: 0 <= k < |entries| && i == D.FindAttr(attrs, entries[k].key))
  {
    var t := "{" + Body(attrs, entries);
    HoldsHead(b, 0, t);
    assert t[1..] == Body(attrs, entries);
    var m := D.Idle().(phase := D.AwaitAttr);
    OneChar(attrs, b, D.Idle(), 0, '{', m);
    if entries == [] {
      HoldsHead(b, 1, "}");
      OneChar(attrs, b, m, 1, '}', m);
    } else {
      ReadsBody(attrs, b, m, 1, entries);
    }
    var r := D.ReadObject(attrs, b);
    assert r == D.Result(D.Ok, Filled(attrs, map[], entries));
    hide D.Loop, Holds, Body, Expected, Filled, Distinct, DistinctKeys;
    forall k | 0 <= k < |entries|
      ensures var i := D.FindAttr(attrs, entries[k].key);
              i < |attrs| && i in r.store && r.store[i] == Expected(attrs[i], entries[k].value)
    {
      FilledAt(attrs, map[], entries, k);
    }
    forall i | i in r.store
      ensures exists k :: 0 <= k < |entries| && i == D.FindAttr(attrs, entries[k].key)
    {
      if forall k :: 0 <= k < |entries| ==> D.FindAttr(attrs, entries[k].key) != i {
        FilledElsewhere(attrs, map[], entries, i);
      }
    }
  }

  // ------------------------------------------------------------- writer and reader

  /** What is still to be written before entry i. */
  ghost function Remaining(attrs: seq<D.Attr>, entries: seq<Entry>, i: nat): string
    requires AllFit(attrs, entries) && i <= |entries|
  {
    if i == |entries| then "}" else (if i > 0 then "," else "") + Body(attrs, entries[i..])
  }

  lemma {:induction false} RemainingEnds(attrs: seq<D.Attr>, entries: seq<Entry>)
    requires AllFit(attrs, entries)
    ensures Remaining(attrs, entries, 0) == Body(attrs, entries) && Remaining(attrs, entries, |entries|) == "}"
  {
    assert entries[0..] == entries;
  }

  lemma RemainingStep(attrs: seq<D.Attr>, entries: seq<Entry>, i: nat, out: string)
    requires AllFit(attrs, entries) && i < |entries|
    ensures EntryFits(attrs, entries[i]) && WellFormed(entries[i].value)
    ensures out + Remaining(attrs, entries, i)
         == out + EntryText(entries[i].key, entries[i].value, i > 0).text + Remaining(attrs, entries, i + 1)
  {
    var e, comma := entries[i], if i > 0 then "," else "";
    assert EntryFits(attrs, e) && entries[i..][0] == e && entries[i..][1..] == entries[i + 1..];
    hide ValueText;
    var t, more := EntryText(e.key, e.value, false).text, Remaining(attrs, entries, i + 1);
    assert EntryText(e.key, e.value, i > 0).text == comma + t;
    assert Body(attrs, entries[i..]) == t + more;
    assert Remaining(attrs, entries, i) == comma + (t + more);
    hide EntryText, Body, Remaining, AllFit, EntryFits;
    Regroup(out, comma + t, more);
    Regroup(comma, t, more);
  }

  /** object_start, an object_entry for each, object_finish. */
  method WriteObject(entries: seq<Entry>, ghost attrs: seq<D.Attr>) returns (text: string)
    requires AllFit(attrs, entries)
    ensures text == "{" + Body(attrs, entries)
  {
    hide Remaining, Body, AllFit, EntryFits, WellFormed, EntryText;
    RemainingEnds(attrs, entries);
    var e := new Encoder();
    e.ObjectStart();
    var i := 0;
    ghost var all := e.out + Remaining(attrs, entries, 0);
    while i < |entries|
      invariant 0 <= i <= |entries| && (e.wrCommas <==> i > 0)
      invariant e.out + Remaining(attrs, entries, i) == all
      invariant fresh(e)
    {
      RemainingStep(attrs, entries, i, e.out);
      e.ObjectEntry(entries[i].key, entries[i].value);
      i := i + 1;
    }
    e.ObjectFinish();
    text := e.out;
  }

  /** Writing an object and reading it back. */
  method WriteThenRead(attrs: seq<D.Attr>, entries: seq<Entry>) returns (r: D.Result)
    requires Distinct(attrs) && AllFit(attrs, entries) && DistinctKeys(entries)
    ensures r.status == D.Ok
    ensures forall k :: 0 <= k < |entries| ==>
              var i := D.FindAttr(attrs, entries[k].key);
              i < |attrs| && i in r.store && r.store[i] == Expected(attrs[i], entries[k].value)
    ensures forall i :: i in r.store ==> exists k :: 0 <= k < |entries| && i == D.FindAttr(attrs, entries[k].key)
  {
    var text := WriteObject(entries, attrs);
    var b := D.Buffer(text, |text| - 1);
    assert entries == [] ==> text == "{" + "}";
    hide AllFit, Body, Expected, D.Loop;
    assert text[0..|text|] == text;
    ObjectRoundTrip(attrs, b, entries);
    var d := new D.JsonDecoder(b);
    r := d.ReadObject(attrs);
  }
}
