/**
 * When the JSON writer puts its commas where they belong. It keeps one flag for
 * all levels of nesting, and the flag outlives the object that set it.
 */
module JsonCommas {

  import opened JsonText
  import opened JsonEncode

  // --------------------------------------------------------- the text as it should be

  /** A value with one comma between neighbours and none elsewhere. */
  function Proper(v: Value): string
    requires WellFormed(v)
    decreases v, 1, 0
  {
    match v
    case Bool(b) => if b then "true" else "false"
    case Uint(u) => Digits(u)
    case Int(i) => Printed(i)
    case Text(s) => "\"" + Escaped(s) + "\""
    case Array(_) => "[" + ProperElements(v, 0) + "]"
    case Object(_, _) => "{" + ProperEntries(v, 0) + "}"
  }

  function ProperElements(v: Value, i: nat): string
    requires v.Array? && WellFormed(v) && i <= |v.elements|
    decreases v, 0, |v.elements| - i
  {
    if i == |v.elements| then ""
    else Proper(v.elements[i]) + (if i != |v.elements| - 1 then "," else "") + ProperElements(v, i + 1)
  }

  function ProperEntries(v: Value, i: nat): string
    requires v.Object? && WellFormed(v) && i <= |v.values|
    decreases v, 0, |v.values| - i
  {
    if i == |v.values| then ""
    else (if i > 0 then "," else "") + KeyText(v.keys[i]) + Proper(v.values[i]) + ProperEntries(v, i + 1)
  }

  // -------------------------------------------------------------- what sets the flag

  /** Writing the value leaves the flag set: there is an entry in it that is not within an entry's value only. */
  ghost predicate Sets(v: Value)
    decreases v
  {
    match v
    case Array(elements) => exists i :: 0 <= i < |elements| && Sets(elements[i])
    case Object(_, values) => values != []
    case _ => false
  }

  /** No array in the value has two elements that both set the flag. */
  ghost predicate Clean(v: Value)
    decreases v
  {
    match v
    case Array(elements) =>
      && (forall i :: 0 <= i < |elements| ==> Clean(elements[i]))
      && (forall i, j :: 0 <= i < j < |elements| ==> !(Sets(elements[i]) && Sets(elements[j])))
    case Object(_, values) => forall i :: 0 <= i < |values| ==> Clean(values[i])
    case _ => true
  }

  ghost predicate SetsFrom(v: Value, i: nat)
    requires v.Array?
  {
    exists j :: i <= j < |v.elements| && Sets(v.elements[j])
  }

  ghost predicate CleanFrom(v: Value, i: nat)
    requires v.Array?
  {
    && (forall j :: i <= j < |v.elements| ==> Clean(v.elements[j]))
    && (forall j, k :: i <= j < k < |v.elements| ==> !(Sets(v.elements[j]) && Sets(v.elements[k])))
  }

  lemma NextElement(v: Value, i: nat)
    requires v.Array? && i < |v.elements|
    ensures SetsFrom(v, i) <==> Sets(v.elements[i]) || SetsFrom(v, i + 1)
    ensures CleanFrom(v, i) <==>
              Clean(v.elements[i]) && CleanFrom(v, i + 1) && !(Sets(v.elements[i]) && SetsFrom(v, i + 1))
  {
  }

  /** Texts no shorter than others, joined, equal the others joined only if each equals its counterpart. */
  lemma JoinedEqual(a: string, b: string, a': string, b': string)
    requires |a| >= |a'| && |b| >= |b'|
    ensures |a + b| >= |a' + b'|
    ensures a + b == a' + b' <==> a == a' && b == b'
  {
    if a + b == a' + b' {
      assert |a| == |a'|;
      assert a == (a + b)[..|a|] && a' == (a' + b')[..|a|];
      assert b == (a + b)[|a|..] && b' == (a' + b')[|a|..];
    }
  }

  // ------------------------------------------------------------------- the theorem

  /**
   * Every value comes out with its commas in place exactly if no array in it has
   * two elements that set the flag, and the flag was not set already when the
   * value itself sets it; and the flag is set afterwards exactly if it was, or
   * the value sets it.
   */
  lemma {:induction false} ProperIffClean(v: Value, c: bool)
    requires WellFormed(v)
    ensures |ValueText(v, c).text| >= |Proper(v)|
    ensures ValueText(v, c).text == Proper(v) <==> Clean(v) && !(c && Sets(v))
    ensures ValueText(v, c).commas == (c || Sets(v))
    decreases v, 1, 0
  {
    match v
    case Bool(_) =>
    case Uint(_) =>
    case Int(_) =>
    case Text(_) =>
    case Array(_) =>
      ElementsProper(v, 0, c);
      ArrayProper(v, c);
    case Object(_, _) =>
      EntriesProper(v, 0);
      ObjectProper(v, c);
  }

  lemma {:induction false} ArrayProper(v: Value, c: bool)
    requires v.Array? && WellFormed(v)
    requires |ElementsText(v, 0, c).text| >= |ProperElements(v, 0)|
    requires ElementsText(v, 0, c).text == ProperElements(v, 0) <==> CleanFrom(v, 0) && !(c && SetsFrom(v, 0))
    requires ElementsText(v, 0, c).commas == (c || SetsFrom(v, 0))
    ensures |ValueText(v, c).text| >= |Proper(v)|
    ensures ValueText(v, c).text == Proper(v) <==> Clean(v) && !(c && Sets(v))
    ensures ValueText(v, c).commas == (c || Sets(v))
  {
    hide ElementsText, ProperElements, CleanFrom, SetsFrom, WellFormed, ValueText, Proper, Clean, Sets;
    ArrayText(v, c);
    ProperArray(v);
    WholeArray(v);
    Between("[", ElementsText(v, 0, c).text, ProperElements(v, 0), "]");
  }

  lemma {:induction false} ProperArray(v: Value)
    requires v.Array? && WellFormed(v)
    ensures Proper(v) == "[" + ProperElements(v, 0) + "]"
  {
    hide ProperElements;
  }

  lemma {:induction false} WholeArray(v: Value)
    requires v.Array?
    ensures Clean(v) <==> CleanFrom(v, 0)
    ensures Sets(v) <==> SetsFrom(v, 0)
  {
  }

  lemma Between(open: string, a: string, b: string, close: string)
    ensures open + a + close == open + b + close <==> a == b
  {
    if open + a + close == open + b + close {
      assert a == (open + a + close)[|open|..|open| + |a|];
      assert b == (open + b + close)[|open|..|open| + |b|];
    }
  }

  lemma {:induction false} ElementsProper(v: Value, i: nat, c: bool)
    requires v.Array? && WellFormed(v) && i <= |v.elements|
    ensures |ElementsText(v, i, c).text| >= |ProperElements(v, i)|
    ensures ElementsText(v, i, c).text == ProperElements(v, i) <==> CleanFrom(v, i) && !(c && SetsFrom(v, i))
    ensures ElementsText(v, i, c).commas == (c || SetsFrom(v, i))
    decreases v, 0, |v.elements| - i
  {
    if i < |v.elements| {
      var e, comma := v.elements[i], if i != |v.elements| - 1 then "," else "";
      var w := ValueText(e, c);
      ProperIffClean(e, c);
      ElementsProper(v, i + 1, w.commas);
      NextElement(v, i);
      hide ValueText, Proper, CleanFrom, SetsFrom, Clean, Sets;
      JoinedEqual(w.text, comma, Proper(e), comma);
      JoinedEqual(w.text + comma, ElementsText(v, i + 1, w.commas).text, Proper(e) + comma, ProperElements(v, i + 1));
    }
  }

  /** Inside an object the flag is what it should be before every entry, and off before every value. */
  lemma {:induction false} EntriesProper(v: Value, i: nat)
    requires v.Object? && WellFormed(v) && i <= |v.values|
    ensures |EntriesText(v, i, i > 0).text| >= |ProperEntries(v, i)|
    ensures EntriesText(v, i, i > 0).text == ProperEntries(v, i) <==> forall j :: i <= j < |v.values| ==> Clean(v.values[j])
    ensures EntriesText(v, i, i > 0).commas == (|v.values| > 0)
    decreases v, 0, |v.values| - i
  {
    if i < |v.values| {
      var comma, key, value := if i > 0 then "," else "", KeyText(v.keys[i]), v.values[i];
      var w, more := ValueText(value, false).text, EntriesText(v, i + 1, true).text;
      ProperIffClean(value, false);
      EntriesProper(v, i + 1);
      hide ValueText, Proper, Clean, Sets, KeyText;
      assert EntriesText(v, i, i > 0).text == comma + key + w + more;
      JoinedEqual(comma + key, w, comma + key, Proper(value));
      JoinedEqual(comma + key + w, more, comma + key + Proper(value), ProperEntries(v, i + 1));
    }
  }

  lemma {:induction false} ObjectProper(v: Value, c: bool)
    requires v.Object? && WellFormed(v)
    requires |EntriesText(v, 0, false).text| >= |ProperEntries(v, 0)|
    requires EntriesText(v, 0, false).text == ProperEntries(v, 0) <==> Clean(v)
    requires EntriesText(v, 0, false).commas == (|v.values| > 0)
    ensures |ValueText(v, c).text| >= |Proper(v)|
    ensures ValueText(v, c).text == Proper(v) <==> Clean(v) && !(c && Sets(v))
    ensures ValueText(v, c).commas == (c || Sets(v))
  {
    ObjectText(v, c);
    var t, p := EntriesText(v, 0, c).text, ProperEntries(v, 0);
    if c && |v.values| > 0 {
      CommaFirst(v, 0);
      FlagLeftSet(v, 0, true);
      assert |t| > |p|;
    }
    Between("{", t, p, "}");
    hide EntriesText, ProperEntries, Clean, WellFormed;
  }
}
