/**
 * The JSON reader: firmware/lib/json/src/json_decode.c over the cursor of
 * firmware/lib/json/src/json_util.c. Attributes are integers, strings,
 * booleans and arrays of numbers or booleans.
 */
module JsonDecode {

  import opened JsonText

  const JSON_ATTR_MAX: nat := 31
  const JSON_VAL_MAX: nat := 512

  datatype Elem = IntElem | UintElem | BoolElem
  datatype Kind = Integer | Uinteger | String | Boolean | ArrayOf(elem: Elem, maxlen: nat)

  /** A template: an attribute's name, its type, and the size of its memory if it is a string. */
  datatype Attr = Attr(name: string, kind: Kind, len: nat)

  /** What is stored for an attribute. */
  datatype Target = IntTarget(i: int) | BoolTarget(b: bool) | TextTarget(memory: string) | ArrayTarget(items: seq<Target>)

  datatype Error =
    | ObStart | AttrStart | BadAttr | AttrLen | NoArray | NoBrak | StrLong | TokLong | BadTrail
    | ArrayStart | SubTooLong | BadSubTrail | QNonString | NonQString | Misc | BadNum

  /** Outside: a \u escape, or more escapes than the value buffer holds. */
  datatype Status = Ok | Err(error: Error) | Outside

  // ------------------------------------------------------------------- the buffer

  /** The text from start_buf on; `last` is the offset of end_buf, the last character that is read. */
  datatype Buffer = Buffer(text: string, last: int) {
    predicate Valid() {
      -1 <= last < |text|
    }

    function Char(pos: nat): char
      requires Valid()
    {
      if pos <= last then text[pos] else NUL
    }

    /** json_readn: up to size characters, never the last one. */
    function Some(pos: nat, size: nat): string
      requires Valid() && pos <= last
    {
      text[pos..if size <= last - pos then pos + size else last]
    }
  }

  /** json_skip_ws: past white space; at the end one character back. */
  function SkipWs(b: Buffer, pos: nat): (p: nat)
    requires b.Valid() && pos <= b.last + 1
    ensures p <= b.last + 1 && (b.last >= 0 ==> p <= b.last)
    ensures pos <= b.last ==> pos <= p
    decreases b.last + 1 - pos
  {
    if pos > b.last then (if pos > 0 then pos - 1 else 0)
    else if IsSpace(b.text[pos]) then SkipWs(b, pos + 1)
    else pos
  }

  // ------------------------------------------------------------------------ arrays

  datatype ArrayResult = ArrayResult(status: Status, items: seq<Target>, pos: nat)

  datatype Item = Item(error: Status, target: Target, used: nat)

  /** One element: strtoll, strtoull, or a comparison with true and false. */
  function ReadItem(elem: Elem, s: string): (r: Item)
    ensures r.error == Ok ==> 0 < r.used <= |s|
  {
    match elem
    case IntElem =>
      var p := StrToLl(s);
      Item(if p.used == 0 then Err(BadNum) else Ok, IntTarget(p.value), p.used)
    case UintElem =>
      var p := StrToUll(s);
      Item(if p.used == 0 then Err(BadNum) else Ok, IntTarget(p.value), p.used)
    case BoolElem =>
      if |s| >= 4 && s[..4] == "true" then Item(Ok, BoolTarget(true), 4)
      else if |s| >= 5 && s[..5] == "false" then Item(Ok, BoolTarget(false), 5)
      else Item(Err(Misc), BoolTarget(false), 0)
  }

  function ItemSize(elem: Elem): nat {
    if elem == BoolElem then 5 else 63
  }

  /** An element, the character behind it, and the position behind that. */
  datatype Element = Element(item: Item, c: char, pos: nat)

  function ElementAt(b: Buffer, elem: Elem, pos: nat): (r: Element)
    requires b.Valid() && 0 <= b.last && pos <= b.last + 1
    ensures r.pos <= b.last + 1 && (r.item.error == Ok ==> pos < r.pos)
  {
    var start := SkipWs(b, pos);
    var item := ReadItem(elem, b.Some(start, ItemSize(elem)));
    if item.error != Ok then Element(item, NUL, 0)
    else
      var end := SkipWs(b, start + item.used);
      Element(item, b.text[end], end + 1)
  }

  /** The loop of json_read_array, from the next element on. */
  function Elements(b: Buffer, elem: Elem, maxlen: nat, pos: nat, items: seq<Target>): (r: ArrayResult)
    requires b.Valid() && 0 <= b.last && pos <= b.last + 1
    ensures r.status.Ok? ==> pos < r.pos <= b.last + 1
    decreases maxlen - |items|
  {
    if |items| >= maxlen then ArrayResult(Err(SubTooLong), items, pos)
    else
      var e := ElementAt(b, elem, pos);
      if e.item.error != Ok then ArrayResult(e.item.error, items, pos)
      else if e.c == ']' then ArrayResult(Ok, items + [e.item.target], e.pos)
      else if e.c != ',' then ArrayResult(Err(BadSubTrail), items + [e.item.target], e.pos)
      else Elements(b, elem, maxlen, e.pos, items + [e.item.target])
  }

  /** json_read_array. Only the closing bracket of an empty array is left unread. */
  function ArrayAt(b: Buffer, elem: Elem, maxlen: nat, pos: nat): (r: ArrayResult)
    requires b.Valid() && pos <= b.last + 1
    ensures r.status.Ok? && pos <= b.last ==> pos < r.pos <= b.last + 1
  {
    var open := SkipWs(b, pos);
    if b.Char(open) != '[' then ArrayResult(Err(ArrayStart), [], open)
    else
      var first := SkipWs(b, open + 1);
      if b.text[first] == ']' then ArrayResult(Ok, [], first)
      else Elements(b, elem, maxlen, first, [])
  }

  // ----------------------------------------------------------------- the object machine

  datatype Phase = Start | AwaitAttr | InAttr | AwaitValue | InString | InEscape | InToken | PostVal | PostArray

  datatype Machine = Machine(
    phase: Phase, attr: string, val: string, quoted: bool, cursor: nat, maxlen: int, store: map<nat, Target>)

  /** What one character leads to: the next state, having read the character or not, an array to read, or an end. */
  datatype Move = Next(m: Machine) | Unread(m: Machine) | Nested(m: Machine) | Stop(status: Status, store: map<nat, Target>)

  predicate HasCursor(attrs: seq<Attr>, m: Machine) {
    m.phase in {Start, AwaitAttr, InAttr} || m.cursor < |attrs|
  }

  function FindAttr(attrs: seq<Attr>, name: string): (i: nat)
    ensures i <= |attrs| && (i < |attrs| ==> attrs[i].name == name)
  {
    if attrs == [] || attrs[0].name == name then 0 else 1 + FindAttr(attrs[1..], name)
  }

  /** The next template of the same name whose type fits the value, or the last of that name. */
  function Seek(attrs: seq<Attr>, m: Machine, i: nat): (j: nat)
    requires i < |attrs|
    ensures i <= j < |attrs|
    decreases |attrs| - i
  {
    var kind := attrs[i].kind;
    if m.quoted && kind.String? then i
    else if m.val in {"true", "false"} && kind.Boolean? then i
    else if m.val != "" && IsDigit(m.val[0]) && '.' !in m.val && (kind.Integer? || kind.Uinteger?) then i
    else if i + 1 == |attrs| || attrs[i + 1].name != m.attr then i
    else Seek(attrs, m, i + 1)
  }

  /** strncpy into memory of a given size. */
  function Strncpy(val: string, size: nat): (r: string)
    ensures |r| == size
  {
    if |val| >= size then val[..size] else val + seq(size - |val|, _ => NUL)
  }

  function Stored(attr: Attr, val: string): Target
    requires !attr.kind.ArrayOf?
  {
    match attr.kind
    case Integer => IntTarget(StrToLl(val).value)
    case Uinteger => IntTarget(StrToUll(val).value)
    case String => TextTarget(Strncpy(val, attr.len))
    case Boolean => BoolTarget(val == "true")
  }

  /** After a value or an array. */
  function Trail(m: Machine, c: char): Move {
    if IsSpace(c) then Next(m)
    else if c == ',' then Next(m.(phase := AwaitAttr))
    else if c == '}' then Stop(Ok, m.store)
    else Stop(Err(BadTrail), m.store)
  }

  function AfterValue(attrs: seq<Attr>, m: Machine, c: char): Move
    requires m.cursor < |attrs|
  {
    var i := Seek(attrs, m, m.cursor);
    if m.quoted && !attrs[i].kind.String? then Stop(Err(QNonString), m.store)
    else if !m.quoted && attrs[i].kind.String? then Stop(Err(NonQString), m.store)
    else if attrs[i].kind.ArrayOf? then Trail(m.(cursor := i), c)
    else Trail(m.(cursor := i, store := m.store[i := Stored(attrs[i], m.val)]), c)
  }

  function InName(attrs: seq<Attr>, m: Machine, c: char): Move {
    if c == '"' then
      var i := FindAttr(attrs, m.attr);
      if i == |attrs| then Stop(Err(BadAttr), m.store)
      else
        var maxlen := if attrs[i].kind.String? then attrs[i].len - 1 else if attrs[i].kind.Boolean? then 5 else m.maxlen;
        Next(m.(phase := AwaitValue, cursor := i, maxlen := maxlen, val := ""))
    else if |m.attr| >= JSON_ATTR_MAX - 1 then Stop(Err(AttrLen), m.store)
    else Next(m.(attr := m.attr + [c]))
  }

  function Quoted(m: Machine, c: char): Move {
    if c == '\\' then Next(m.(phase := InEscape))
    else if c == '"' then if |m.val| > JSON_VAL_MAX then Stop(Outside, m.store) else Next(m.(phase := PostVal))
    else if |m.val| > JSON_VAL_MAX - 1 || |m.val| > m.maxlen then Stop(Err(StrLong), m.store)
    else Next(m.(val := m.val + [c]))
  }

  function Unescaped(c: char): char {
    if c == 'b' then BACKSPACE
    else if c == 'f' then FORM_FEED
    else if c == 'n' then '\n'
    else if c == 'r' then '\r'
    else if c == 't' then '\t'
    else c
  }

  function Escape(m: Machine, c: char): Move {
    if c == 'u' || |m.val| > JSON_VAL_MAX then Stop(Outside, m.store)
    else Next(m.(phase := InString, val := m.val + [Unescaped(c)]))
  }

  function Token(m: Machine, c: char): Move {
    if c == ',' || c == '}' then Unread(m.(phase := PostVal))
    else if IsSpace(c) then Next(m.(phase := PostVal))
    else if |m.val| > JSON_VAL_MAX - 1 then Stop(Err(TokLong), m.store)
    else Next(m.(val := m.val + [c]))
  }

  /** One character of json_internal_read_object. */
  function Advance(attrs: seq<Attr>, m: Machine, c: char): (r: Move)
    requires HasCursor(attrs, m)
    ensures r.Next? || r.Unread? || r.Nested? ==> HasCursor(attrs, r.m)
    ensures r.Unread? ==> m.phase == InToken && r.m.phase != InToken
    ensures r.Nested? ==> c == '[' && r.m.cursor < |attrs| && attrs[r.m.cursor].kind.ArrayOf?
  {
    match m.phase
    case Start =>
      if IsSpace(c) then Next(m) else if c == '{' then Next(m.(phase := AwaitAttr)) else Stop(Err(ObStart), m.store)
    case AwaitAttr =>
      if IsSpace(c) || c == '}' then Next(m)
      else if c == '"' then Next(m.(phase := InAttr, attr := ""))
      else Stop(Err(AttrStart), m.store)
    case InAttr => InName(attrs, m, c)
    case AwaitValue =>
      var isArray := attrs[m.cursor].kind.ArrayOf?;
      if IsSpace(c) || c == ':' then Next(m)
      else if c == '[' then if isArray then Nested(m.(phase := PostArray)) else Stop(Err(NoArray), m.store)
      else if isArray then Stop(Err(NoBrak), m.store)
      else if c == '"' then Next(m.(phase := InString, quoted := true, val := ""))
      else Next(m.(phase := InToken, quoted := false, val := [c]))
    case InString => Quoted(m, c)
    case InEscape => Escape(m, c)
    case InToken => Token(m, c)
    case PostVal => AfterValue(attrs, m, c)
    case PostArray => Trail(m, c)
  }

  datatype Result = Result(status: Status, store: map<nat, Target>)

  /** json_internal_read_object from a state and a position on. */
  function Loop(attrs: seq<Attr>, b: Buffer, m: Machine, pos: nat): Result
    requires b.Valid() && pos <= b.last + 1 && HasCursor(attrs, m)
    decreases b.last + 1 - pos, if m.phase == InToken then 1 else 0
  {
    var c := b.Char(pos);
    if c == NUL then Result(Ok, m.store)
    else
      match Advance(attrs, m, c)
      case Stop(status, store) => Result(status, store)
      case Next(m') => Loop(attrs, b, m', pos + 1)
      case Unread(m') => Loop(attrs, b, m', pos)
      case Nested(m') =>
        var kind := attrs[m'.cursor].kind;
        var r := ArrayAt(b, kind.elem, kind.maxlen, pos);
        if r.status != Ok then Result(r.status, m'.store)
        else Loop(attrs, b, m'.(store := m'.store[m'.cursor := ArrayTarget(r.items)]), r.pos)
  }

  function Idle(): Machine {
    Machine(Start, "", "", false, 0, 0, map[])
  }

  /** json_read_object; attributes that do not occur keep their defaults and are not in the store. */
  function ReadObject(attrs: seq<Attr>, b: Buffer): Result
    requires b.Valid()
  {
    Loop(attrs, b, Idle(), 0)
  }

  // ------------------------------------------------------------------ the decoder

  class JsonDecoder {
    const buffer: Buffer
    var position: nat

    ghost predicate Valid()
      reads this
    {
      buffer.Valid() && position <= buffer.last + 1
    }

    constructor (buffer: Buffer)
      requires buffer.Valid()
      ensures Valid() && this.buffer == buffer && position == 0
    {
      this.buffer, position := buffer, 0;
    }

    method ReadNext() returns (c: char)
      requires Valid()
      modifies this
      ensures Valid() && c == buffer.Char(old(position))
      ensures position == if old(position) <= buffer.last then old(position) + 1 else old(position)
    {
      if position <= buffer.last {
        c := buffer.text[position];
        position := position + 1;
        return c;
      }
      return NUL;
    }

    method ReadPrev() returns (c: char)
      requires Valid()
      modifies this
      ensures Valid()
      ensures if old(position) > 0 then position == old(position) - 1 && c == buffer.text[position]
              else position == 0 && c == NUL
    {
      if position > 0 {
        position := position - 1;
        return buffer.text[position];
      }
      return NUL;
    }

    method ReadN(size: nat) returns (s: string)
      requires Valid() && position <= buffer.last
      modifies this
      ensures Valid() && s == buffer.Some(old(position), size) && position == old(position) + |s|
      ensures |s| <= size
    {
      var n := if size > buffer.last - position then buffer.last - position else size;
      s := buffer.text[position..position + n];
      position := position + n;
    }

    method SkipWhite()
      requires Valid()
      modifies this
      ensures Valid() && position == SkipWs(buffer, old(position))
    {
      var c := ReadNext();
      while IsSpace(c)
        invariant Valid()
        invariant IsSpace(c) ==> 0 < position && SkipWs(buffer, position) == SkipWs(buffer, old(position))
        invariant !IsSpace(c) ==> (if position > 0 then position - 1 else 0) == SkipWs(buffer, old(position))
        decreases buffer.last + 1 - position, IsSpace(c)
      {
        c := ReadNext();
      }
      c := ReadPrev();
    }

    method Peek() returns (c: char)
      requires Valid() && position <= buffer.last
      modifies this
      ensures Valid() && position == old(position) && c == buffer.text[position]
    {
      c := ReadNext();
      c := ReadPrev();
    }

    /** One element, its unused characters handed back one by one. */
    method NextItem(elem: Elem) returns (item: Item)
      requires Valid() && position <= buffer.last
      modifies this
      ensures Valid() && item == ReadItem(elem, buffer.Some(old(position), ItemSize(elem)))
      ensures item.error == Ok ==> position == old(position) + item.used
    {
      var s := ReadN(ItemSize(elem));
      item := ReadItem(elem, s);
      if item.error == Ok {
        var count := |s| - item.used;
        while count > 0
          invariant 0 <= count <= |s| - item.used
          invariant Valid() && position == old(position) + item.used + count
        {
          var c := ReadPrev();
          count := count - 1;
        }
      }
    }

    /** One round of the loop over the elements, up to the character behind the element. */
    method NextElement(elem: Elem) returns (item: Item, c: char)
      requires Valid() && 0 <= buffer.last
      modifies this
      ensures Valid()
      ensures var e := ElementAt(buffer, elem, old(position));
              item == e.item && (item.error == Ok ==> c == e.c && position == e.pos)
    {
      hide SkipWs, ReadItem, ItemSize;
      SkipWhite();
      item := NextItem(elem);
      c := NUL;
      if item.error == Ok {
        SkipWhite();
        c := ReadNext();
      }
    }

    method ReadElements(elem: Elem, maxlen: nat) returns (status: Status, items: seq<Target>)
      requires Valid() && 0 <= buffer.last
      modifies this
      ensures Valid()
      ensures var r := Elements(buffer, elem, maxlen, old(position), []);
              status == r.status && items == r.items && (status.Ok? ==> position == r.pos)
    {
      hide ElementAt;
      items := [];
      ghost var all := Elements(buffer, elem, maxlen, position, []);
      while |items| < maxlen
        invariant Valid() && all == Elements(buffer, elem, maxlen, position, items)
      {
        var item, c := NextElement(elem);
        if item.error != Ok {
          return item.error, items;
        }
        items := items + [item.target];
        if c == ']' {
          return Ok, items;
        } else if c != ',' {
          return Err(BadSubTrail), items;
        }
      }
      return Err(SubTooLong), items;
    }

    method ReadArray(elem: Elem, maxlen: nat) returns (status: Status, items: seq<Target>)
      requires Valid()
      modifies this
      ensures Valid()
      ensures var r := ArrayAt(buffer, elem, maxlen, old(position));
              status == r.status && items == r.items && (status.Ok? ==> position == r.pos)
    {
      hide SkipWs, Elements;
      SkipWhite();
      var c := ReadNext();
      if c != '[' {
        return Err(ArrayStart), [];
      }
      SkipWhite();
      c := Peek();
      if c == ']' {
        return Ok, [];
      }
      status, items := ReadElements(elem, maxlen);
    }

    method ReadObject(attrs: seq<Attr>) returns (r: Result)
      requires Valid()
      modifies this
      ensures r == Loop(attrs, buffer, Idle(), old(position))
    {
      hide Advance, SkipWs;
      var m := Idle();
      var c := ReadNext();
      ghost var at := old(position);
      while c != NUL
        invariant Valid() && at <= buffer.last + 1 && c == buffer.Char(at)
        invariant c != NUL ==> position == at + 1
        invariant HasCursor(attrs, m)
        invariant Loop(attrs, buffer, m, at) == Loop(attrs, buffer, Idle(), old(position))
        decreases buffer.last + 1 - at, if m.phase == InToken then 1 else 0
      {
        match Advance(attrs, m, c) {
          case Stop(status, store) =>
            return Result(status, store);
          case Next(m') =>
            m := m';
          case Unread(m') =>
            m := m';
            c := ReadPrev();
          case Nested(m') =>
            m := m';
            c := ReadPrev();
            var kind := attrs[m.cursor].kind;
            var substatus, items := ReadArray(kind.elem, kind.maxlen);
            if substatus != Ok {
              return Result(substatus, m.store);
            }
            m := m.(store := m.store[m.cursor := ArrayTarget(items)]);
        }
        at := position;
        c := ReadNext();
      }
      return Result(Ok, m.store);
    }
  }
}
