/** What the JSON reader passes over and what it refuses, and with which error. */
module JsonErrors {
  import opened Prelude
  import opened JsonText
  import opened D = JsonDecode
  import opened JsonRoundTrip

  /** The character at pos ends the reading. */
  lemma {:induction false} StopsAt(attrs: seq<Attr>, b: Buffer, m: Machine, pos: nat, status: Status)
    requires b.Valid() && pos <= b.last && b.text[pos] != NUL && HasCursor(attrs, m)
    requires Advance(attrs, m, b.text[pos]) == Stop(status, m.store)
    ensures Loop(attrs, b, m, pos) == Result(status, m.store)
  {
    hide Advance;
  }

  // ------------------------------------------------------------------ white space

  ghost predicate Blank(w: string) {
    forall i :: 0 <= i < |w| ==> IsSpace(w[i])
  }

  /** Space before the object, its names and its values, and behind an array, changes nothing. */
  lemma {:induction false} BlanksAreSkipped(attrs: seq<Attr>, b: Buffer, m: Machine, pos: nat, w: string)
    requires Holds(b, pos, w) && Blank(w) && HasCursor(attrs, m)
    requires m.phase in {Start, AwaitAttr, AwaitValue, PostArray}
    ensures pos + |w| <= b.last + 1 && Loop(attrs, b, m, pos) == Loop(attrs, b, m, pos + |w|)
    decreases |w|
  {
    hide Loop;
    if w != "" {
      HoldsHead(b, pos, w);
      OneChar(attrs, b, m, pos, w[0], m);
      BlanksAreSkipped(attrs, b, m, pos + 1, w[1..]);
    }
  }

  /** With different names a value has the one template. */
  lemma {:induction false} OneTemplate(attrs: seq<Attr>, m: Machine)
    requires AtValue(attrs, m)
    ensures Seek(attrs, m, m.cursor) == m.cursor
  {
  }

  /** The state once the value has been stored. */
  ghost function Settled(attrs: seq<Attr>, m: Machine): Machine
    requires m.cursor < |attrs|
  {
    if attrs[m.cursor].kind.ArrayOf? then m else m.(store := m.store[m.cursor := Stored(attrs[m.cursor], m.val)])
  }

  /** A value in quotes is for a string, and one without for anything else. */
  ghost predicate Suits(attrs: seq<Attr>, m: Machine)
    requires m.cursor < |attrs|
  {
    m.quoted <==> attrs[m.cursor].kind.String?
  }

  /** What happens to a value depends on its quotes alone, and storing it twice is storing it once. */
  lemma ValueIsSettled(attrs: seq<Attr>, m: Machine, c: char)
    requires AtValue(attrs, m) && m.phase == PostVal
    ensures Advance(attrs, m, c) == if Suits(attrs, m) then Trail(Settled(attrs, m), c)
      else Stop(Err(if m.quoted then QNonString else NonQString), m.store)
    ensures Suits(attrs, m) ==> AtValue(attrs, Settled(attrs, m)) && Advance(attrs, Settled(attrs, m), c) == Advance(attrs, m, c)
  {
    OneTemplate(attrs, m);
    OneTemplate(attrs, Settled(attrs, m));
    hide Seek;
  }

  lemma {:induction false} SameMove(attrs: seq<Attr>, b: Buffer, m: Machine, m': Machine, pos: nat)
    requires b.Valid() && pos <= b.last && b.text[pos] != NUL && HasCursor(attrs, m) && HasCursor(attrs, m')
    requires m.phase == m'.phase && Advance(attrs, m, b.text[pos]) == Advance(attrs, m', b.text[pos])
    ensures Loop(attrs, b, m, pos) == Loop(attrs, b, m', pos)
  {
    hide Advance;
  }

  /** Behind a value, too. */
  lemma {:induction false} BlanksBehindValue(attrs: seq<Attr>, b: Buffer, m: Machine, pos: nat, w: string)
    requires Holds(b, pos, w) && Blank(w) && AtValue(attrs, m) && Suits(attrs, m) && m.phase == PostVal
    requires pos + |w| <= b.last && b.text[pos + |w|] != NUL
    ensures Loop(attrs, b, m, pos) == Loop(attrs, b, m, pos + |w|)
    decreases |w|
  {
    if w != "" {
      HoldsHead(b, pos, w);
      var m', c := Settled(attrs, m), b.text[pos + |w|];
      ValueIsSettled(attrs, m, w[0]);
      ValueIsSettled(attrs, m, c);
      hide Loop, Advance, AtValue, Settled;
      OneChar(attrs, b, m, pos, w[0], m');
      BlanksBehindValue(attrs, b, m', pos + 1, w[1..]);
      SameMove(attrs, b, m, m', pos + |w|);
    }
  }

  /** A value of the wrong kind is refused whatever follows it. */
  lemma {:induction false} WrongKindIsRefused(attrs: seq<Attr>, b: Buffer, m: Machine, pos: nat)
    requires AtValue(attrs, m) && !Suits(attrs, m) && m.phase == PostVal
    requires b.Valid() && pos <= b.last && b.text[pos] != NUL
    ensures Loop(attrs, b, m, pos) == Result(Err(if m.quoted then QNonString else NonQString), m.store)
  {
    ValueIsSettled(attrs, m, b.text[pos]);
    StopsAt(attrs, b, m, pos, Err(if m.quoted then QNonString else NonQString));
  }

  /** json_skip_ws stops at the first other character, or at the last one if there is no other. */
  lemma {:induction false} SkipWsIs(b: Buffer, pos: nat)
    requires b.Valid() && pos <= b.last
    ensures var p := SkipWs(b, pos);
      && pos <= p <= b.last
      && (forall i :: pos <= i < p ==> IsSpace(b.text[i]))
      && (IsSpace(b.text[p]) ==> p == b.last)
    decreases b.last - pos
  {
    if IsSpace(b.text[pos]) && pos < b.last {
      SkipWsIs(b, pos + 1);
    }
  }

  lemma {:induction false} SameElement(b: Buffer, elem: Elem, pos: nat, pos': nat)
    requires b.Valid() && pos <= b.last && pos' <= b.last && SkipWs(b, pos) == SkipWs(b, pos')
    ensures ElementAt(b, elem, pos) == ElementAt(b, elem, pos')
  {
    hide SkipWs, ReadItem, ItemSize;
  }

  lemma {:induction false} SameArray(b: Buffer, elem: Elem, maxlen: nat, pos: nat, pos': nat)
    requires b.Valid() && pos <= b.last && pos' <= b.last && SkipWs(b, pos) == SkipWs(b, pos')
    ensures ArrayAt(b, elem, maxlen, pos) == ArrayAt(b, elem, maxlen, pos')
  {
    hide SkipWs, Elements;
  }

  /** Space before an array and before its elements changes nothing. */
  lemma BlanksInArrays(b: Buffer, elem: Elem, maxlen: nat, pos: nat, w: string)
    requires Holds(b, pos, w) && Blank(w) && pos + |w| <= b.last
    ensures ElementAt(b, elem, pos) == ElementAt(b, elem, pos + |w|)
    ensures ArrayAt(b, elem, maxlen, pos) == ArrayAt(b, elem, maxlen, pos + |w|)
  {
    SkipsBlanks(b, pos, w);
    hide SkipWs, ElementAt, ArrayAt, Blank;
    SameElement(b, elem, pos, pos + |w|);
    SameArray(b, elem, maxlen, pos, pos + |w|);
  }

  lemma {:induction false} SkipsBlanks(b: Buffer, pos: nat, w: string)
    requires Holds(b, pos, w) && Blank(w) && pos + |w| <= b.last
    ensures SkipWs(b, pos) == SkipWs(b, pos + |w|)
    decreases |w|
  {
    if w != "" {
      HoldsHead(b, pos, w);
      SkipsBlanks(b, pos + 1, w[1..]);
    }
  }

  // ------------------------------------------------------- templates of the same name

  /** The template is of the kind the value looks like. */
  ghost predicate LooksLike(kind: Kind, quoted: bool, val: string) {
    || (kind == String && quoted)
    || (kind == Boolean && (val == "true" || val == "false"))
    || (kind in {Integer, Uinteger} && val != "" && '0' <= val[0] <= '9' && '.' !in val)
  }

  /** Of the templates of one name that follow each other, the first of the kind the value looks like, else the last. */
  lemma {:induction false} SeekIs(attrs: seq<Attr>, m: Machine, i: nat)
    requires i < |attrs|
    ensures var j := Seek(attrs, m, i);
      && i <= j < |attrs|
      && (forall k :: i <= k < j ==> !LooksLike(attrs[k].kind, m.quoted, m.val))
      && (forall k :: i < k <= j ==> attrs[k].name == m.attr)
      && (LooksLike(attrs[j].kind, m.quoted, m.val) || j + 1 == |attrs| || attrs[j + 1].name != m.attr)
    decreases |attrs| - i
  {
    if Seek(attrs, m, i) != i {
      SeekIs(attrs, m, i + 1);
    }
  }

  // ---------------------------------------------------------------- what is expected

  /** An object starts with a brace, a name with a quote, an array with a bracket, and nothing else with one. */
  ghost function Expecting(attrs: seq<Attr>, m: Machine, c: char): Option<Error>
    requires HasCursor(attrs, m) && m.phase in {Start, AwaitAttr, AwaitValue, PostArray}
  {
    if m.phase == Start then if c == '{' then None else Option.Some(ObStart)
    else if m.phase == AwaitAttr then if c in {'"', '}'} then None else Option.Some(AttrStart)
    else if m.phase == PostArray then if c in {',', '}'} then None else Option.Some(BadTrail)
    else if c == ':' || (c == '[') == attrs[m.cursor].kind.ArrayOf? then None
    else Option.Some(if c == '[' then NoArray else NoBrak)
  }

  /** After any space, whatever else stands in the place of what is expected is refused, with an error of its own. */
  lemma {:induction false} UnexpectedIsRefused(attrs: seq<Attr>, b: Buffer, m: Machine, pos: nat, w: string, c: char)
    requires HasCursor(attrs, m) && m.phase in {Start, AwaitAttr, AwaitValue, PostArray}
    requires Holds(b, pos, w + [c]) && Blank(w) && c != NUL && !IsSpace(c) && Expecting(attrs, m, c).Some?
    ensures Loop(attrs, b, m, pos) == Result(Err(Expecting(attrs, m, c).value), m.store)
  {
    HoldsSplit(b, pos, w, [c]);
    BlanksAreSkipped(attrs, b, m, pos, w);
    HoldsHead(b, pos + |w|, [c]);
    StopsAt(attrs, b, m, pos + |w|, Err(Expecting(attrs, m, c).value));
  }

  /** Behind a value only a comma or a brace. */
  lemma {:induction false} BadTrailIsRefused(attrs: seq<Attr>, b: Buffer, m: Machine, pos: nat, w: string, c: char)
    requires AtValue(attrs, m) && Suits(attrs, m) && m.phase == PostVal
    requires Holds(b, pos, w + [c]) && Blank(w) && c != NUL && !IsSpace(c) && c !in {',', '}'}
    ensures Loop(attrs, b, m, pos).status == Err(BadTrail)
  {
    HoldsSplit(b, pos, w, [c]);
    HoldsHead(b, pos + |w|, [c]);
    BlanksBehindValue(attrs, b, m, pos, w);
    ValueIsSettled(attrs, m, c);
    hide Advance, AtValue, Settled;
  }

  // ------------------------------------------------------------------------- lengths

  /** The template found for a name is the first of that name. */
  lemma {:induction false} FindAttrIs(attrs: seq<Attr>, name: string)
    ensures var i := FindAttr(attrs, name);
      && (i < |attrs| <==> exists j :: 0 <= j < |attrs| && attrs[j].name == name)
      && (forall j :: 0 <= j < i ==> attrs[j].name != name)
  {
    if attrs != [] && attrs[0].name != name {
      FindAttrIs(attrs[1..], name);
      if j :| 0 <= j < |attrs| && attrs[j].name == name {
        var at := j - 1;
        assert attrs[1..][at].name == name;
      }
    }
  }

  /** A name of more than 30 characters is refused. */
  lemma {:induction false} LongNameIsRefused(attrs: seq<Attr>, b: Buffer, m: Machine, pos: nat, key: string)
    requires m.phase == InAttr && Holds(b, pos, key) && forall k :: 0 <= k < |key| ==> key[k] != '"' && key[k] != NUL
    requires |m.attr| <= 30 < |m.attr| + |key|
    ensures Loop(attrs, b, m, pos) == Result(Err(AttrLen), m.store)
    decreases |key|
  {
    HoldsHead(b, pos, key);
    hide Loop;
    if |m.attr| == 30 {
      StopsAt(attrs, b, m, pos, Err(AttrLen));
    } else {
      var m' := m.(attr := m.attr + [key[0]]);
      OneChar(attrs, b, m, pos, key[0], m');
      LongNameIsRefused(attrs, b, m', pos + 1, key[1..]);
    }
  }

  /** So is a name that no template has. */
  lemma {:induction false} UnknownNameIsRefused(attrs: seq<Attr>, b: Buffer, m: Machine, pos: nat, key: string)
    requires m.phase == InAttr && Holds(b, pos, key + "\"") && Readable(m.attr + key)
    requires forall j :: 0 <= j < |attrs| ==> attrs[j].name != m.attr + key
    ensures Loop(attrs, b, m, pos) == Result(Err(BadAttr), m.store)
    decreases |key|
  {
    HoldsHead(b, pos, key + "\"");
    hide Loop;
    if key == "" {
      assert m.attr + key == m.attr;
      FindAttrIs(attrs, m.attr);
      StopsAt(attrs, b, m, pos, Err(BadAttr));
    } else {
      var m' := m.(attr := m.attr + [key[0]]);
      assert m'.attr + key[1..] == m.attr + key && (m.attr + key)[|m.attr|] == key[0];
      assert (key + "\"")[1..] == key[1..] + "\"";
      OneChar(attrs, b, m, pos, key[0], m');
      UnknownNameIsRefused(attrs, b, m', pos + 1, key[1..]);
    }
  }

  /** No quote, backslash or NUL. */
  ghost predicate Literal(s: string) {
    forall k :: 0 <= k < |s| ==> s[k] !in {'"', '\\', NUL}
  }

  /** A string may have as many characters as its memory, and 512 at most; one more is refused. */
  lemma {:induction false} LongStringIsRefused(attrs: seq<Attr>, b: Buffer, m: Machine, pos: nat, s: string)
    requires m.phase == InString && m.cursor < |attrs| && Holds(b, pos, s) && Literal(s)
    requires var most := if m.maxlen < 511 then m.maxlen + 1 else 512; |m.val| <= most < |m.val| + |s|
    ensures Loop(attrs, b, m, pos) == Result(Err(StrLong), m.store)
    decreases |s|
  {
    HoldsHead(b, pos, s);
    hide Loop;
    if |m.val| == if m.maxlen < 511 then m.maxlen + 1 else 512 {
      StopsAt(attrs, b, m, pos, Err(StrLong));
    } else {
      var m' := m.(val := m.val + [s[0]]);
      OneChar(attrs, b, m, pos, s[0], m');
      LongStringIsRefused(attrs, b, m', pos + 1, s[1..]);
    }
  }

  /** A number or a boolean may have 512 characters. */
  lemma {:induction false} LongTokenIsRefused(attrs: seq<Attr>, b: Buffer, m: Machine, pos: nat, t: string)
    requires m.phase == InToken && m.cursor < |attrs| && Holds(b, pos, t) && Plain(t)
    requires |m.val| <= 512 < |m.val| + |t|
    ensures Loop(attrs, b, m, pos) == Result(Err(TokLong), m.store)
    decreases |t|
  {
    HoldsHead(b, pos, t);
    hide Loop;
    if |m.val| == 512 {
      StopsAt(attrs, b, m, pos, Err(TokLong));
    } else {
      var m' := m.(val := m.val + [t[0]]);
      OneChar(attrs, b, m, pos, t[0], m');
      LongTokenIsRefused(attrs, b, m', pos + 1, t[1..]);
    }
  }

  // -------------------------------------------------------------------------- arrays

  /** What is no array, an element that is none, and an element followed by neither comma nor bracket. */
  lemma NoArrayIsRefused(b: Buffer, elem: Elem, maxlen: nat, pos: nat, c: char)
    requires Holds(b, pos, [c]) && !IsSpace(c) && c != '['
    ensures ArrayAt(b, elem, maxlen, pos).status == Err(ArrayStart)
  {
    HoldsHead(b, pos, [c]);
    NoSpace(b, pos);
  }

  /** Nothing that starts with this character is a number, true or false. */
  ghost predicate StartsNothing(c: char) {
    !IsSpace(c) && !IsDigit(c) && c !in {'+', '-', 't', 'f'}
  }

  lemma NoItem(elem: Elem, s: string)
    requires s == "" || StartsNothing(s[0])
    ensures ReadItem(elem, s).error == Err(if elem == BoolElem then Misc else BadNum)
  {
  }

  lemma {:induction false} NoItemIsRefused(b: Buffer, elem: Elem, maxlen: nat, pos: nat, items: seq<Target>, c: char)
    requires Holds(b, pos, [c]) && StartsNothing(c) && |items| < maxlen
    ensures Elements(b, elem, maxlen, pos, items).status == Err(if elem == BoolElem then Misc else BadNum)
  {
    HoldsHead(b, pos, [c]);
    NoSpace(b, pos);
    NoItem(elem, b.Some(pos, ItemSize(elem)));
    hide ReadItem, SkipWs, ItemSize;
  }

  lemma {:induction false} NoCommaIsRefused(b: Buffer, elem: Elem, maxlen: nat, pos: nat, items: seq<Target>)
    requires b.Valid() && pos <= b.last && |items| < maxlen
    requires ElementAt(b, elem, pos).item.error == Ok && ElementAt(b, elem, pos).c !in {',', ']'}
    ensures Elements(b, elem, maxlen, pos, items).status == Err(BadSubTrail)
  {
    hide ElementAt;
  }
}
