/** The text the JSON writer makes of a string, as a reader that takes nothing but standard escapes understands it. */
module JsonStrict {
  import opened Prelude
  import opened JsonText
  import opened JsonEncode

  /** What a backslash and this character stand for: section 7 of RFC 8259, without code points. */
  ghost function Meant(c: char): Option<char> {
    if c == '"' || c == '/' || c == '\\' then Some(c)
    else if c == 't' then Some('\t')
    else if c == 'r' then Some('\r')
    else if c == 'n' then Some('\n')
    else if c == 'f' then Some(FORM_FEED)
    else if c == 'b' then Some(BACKSPACE)
    else None
  }

  /** Characters that are written with a backslash. */
  ghost predicate Special(c: char) {
    exists e :: Meant(e) == Some(c)
  }

  /** The string a text stands for, if it has no special character but behind a backslash. */
  ghost function Strictly(t: string): Option<string> {
    if t == "" then Some("")
    else if t[0] == '\\' then
      if |t| == 1 || Meant(t[1]) == None then None
      else
        var more := Strictly(t[2..]);
        if more == None then None else Some([Meant(t[1]).value] + more.value)
    else if Special(t[0]) then None
    else
      var more := Strictly(t[1..]);
      if more == None then None else Some([t[0]] + more.value)
  }

  lemma SpecialIs(c: char)
    ensures Special(c) <==> c in {'"', '/', '\\', '\t', '\r', '\n', FORM_FEED, BACKSPACE}
  {
    assert Meant('"') == Some('"') && Meant('/') == Some('/') && Meant('\\') == Some('\\');
    assert Meant('t') == Some('\t') && Meant('r') == Some('\r') && Meant('n') == Some('\n');
    assert Meant('f') == Some(FORM_FEED) && Meant('b') == Some(BACKSPACE);
  }

  lemma EscapeIs(c: char)
    ensures if Special(c) then |EscapedChar(c)| == 2 && EscapedChar(c)[0] == '\\' && Meant(EscapedChar(c)[1]) == Some(c)
      else EscapedChar(c) == [c] && c != '\\'
  {
    SpecialIs(c);
  }

  /** A strict reader takes every string back from the text written for it. */
  lemma {:induction false} EscapedIsStrict(s: string)
    ensures Strictly(Escaped(s)) == Some(s)
  {
    if s != "" {
      var head, more := EscapedChar(s[0]), Escaped(s[1..]);
      EscapedIsStrict(s[1..]);
      EscapeIs(s[0]);
      assert Escaped(s) == head + more && (head + more)[|head|..] == more;
      hide EscapedChar, Special, Meant, Escaped;
      assert s == [s[0]] + s[1..];
    }
  }

  /** No control character in the text. */
  ghost predicate Clean(t: string) { forall i :: 0 <= i < |t| ==> t[i] >= ' ' }

  lemma CleanParts(t: string, u: string)
    ensures Clean(t + u) <==> Clean(t) && Clean(u)
  {
    if Clean(t + u) {
      forall i | 0 <= i < |t| ensures t[i] >= ' ' { assert (t + u)[i] == t[i]; }
      forall i | 0 <= i < |u| ensures u[i] >= ' ' { var at := |t| + i; assert (t + u)[at] == u[i]; }
    }
  }

  lemma EscapedCharIsClean(c: char)
    ensures Clean(EscapedChar(c)) <==> c >= ' ' || Special(c)
  {
    SpecialIs(c);
    var e := EscapedChar(c);
    assert |e| == 1 ==> e[0] == c;
  }

  /** No control character is left in the text exactly if the string has none but those with an escape of their own. */
  lemma {:induction false} NoControlIff(s: string)
    ensures Clean(Escaped(s)) <==> forall i :: 0 <= i < |s| ==> s[i] >= ' ' || Special(s[i])
  {
    if s != "" {
      var rest := s[1..];
      NoControlIff(rest);
      EscapedCharIsClean(s[0]);
      CleanParts(EscapedChar(s[0]), Escaped(rest));
      hide EscapedChar, Special, Clean;
      assert s == [s[0]] + rest;
    }
  }
}
