/** The class-name builders of the `i-bem__internal` module: BEM class names
    `block`, `block_mod_val`, `block__elem`, `block__elem_mod_val`. */
module BemNaming {
  import opened Wrappers

  /** The JavaScript values the builders are handed. `Obj` is a plain object,
      given by its own enumerable properties in enumeration order. */
  datatype JsValue =
    | Undef
    | Null
    | Str(s: string)
    | Int(i: int)
    | Bool(b: bool)
    | Obj(props: seq<(string, JsValue)>)

  /** Separator before a modifier name and before its value. */
  const ModDelim: string := "_"

  /** Separator between a block and one of its elements. */
  const ElemDelim: string := "__"

  /** JavaScript's `typeof`; `null` reports "object". */
  function TypeOf(v: JsValue): string {
    match v
    case Undef => "undefined"
    case Null => "object"
    case Str(_) => "string"
    case Int(_) => "number"
    case Bool(_) => "boolean"
    case Obj(_) => "object"
  }

  /** `isSimple`: `typeof` is string, number or boolean, so exactly strings,
      numbers and booleans are simple, and `null` is not. */
  predicate IsSimple(v: JsValue): (r: bool)
    ensures r <==> v.Str? || v.Int? || v.Bool?
    ensures !r <==> v.Undef? || v.Null? || v.Obj?
  {
    var t := TypeOf(v);
    t == "string" || t == "number" || t == "boolean"
  }

  /** JavaScript truthiness. */
  predicate Truthy(v: JsValue) {
    match v
    case Undef => false
    case Null => false
    case Str(s) => s != ""
    case Int(i) => i != 0
    case Bool(b) => b
    case Obj(_) => true
  }

  function DigitChar(d: nat): (c: char)
    requires d < 10
    ensures '0' <= c <= '9'
  {
    "0123456789"[d]
  }

  /** The decimal digits of `n`, most significant first. */
  function Digits(n: nat): (r: string)
    ensures |r| > 0
    ensures forall k :: 0 <= k < |r| ==> '0' <= r[k] <= '9'
    ensures (r[0] == '0') <==> n == 0
    decreases n
  {
    if n < 10 then [DigitChar(n)] else Digits(n / 10) + [DigitChar(n % 10)]
  }

  /** How `+` renders a number operand. */
  function IntToString(i: int): (r: string)
    ensures |r| > 0
    ensures r[0] == '-' <==> i < 0
    ensures forall k :: 0 < k < |r| ==> '0' <= r[k] <= '9'
  {
    if i < 0 then "-" + Digits(-i) else Digits(i)
  }

  /** The number a string of decimal digits denotes. */
  function DigitsValue(s: string): nat
    requires forall k :: 0 <= k < |s| ==> '0' <= s[k] <= '9'
  {
    if s == [] then 0
    else
      var last := s[|s| - 1];
      assert '0' <= last <= '9';
      DigitsValue(s[..|s| - 1]) * 10 + ((last as int) - ('0' as int))
  }

  /** The number a rendered integer denotes: a leading minus, then digits. */
  function ParseInt(s: string): int
    requires |s| > 0 && forall k :: 0 < k < |s| ==> '0' <= s[k] <= '9'
    requires s[0] != '-' ==> '0' <= s[0] <= '9'
  {
    if s[0] == '-' then
      -(DigitsValue(s[1..]) as int)
    else DigitsValue(s)
  }

  /** The digits of `n` denote `n`. */
  lemma {:induction false} DigitsRoundTrip(n: nat)
    ensures DigitsValue(Digits(n)) == n
    decreases n
  {
    var r := Digits(n);
    if n >= 10 {
      DigitsRoundTrip(n / 10);
      assert r[..|r| - 1] == Digits(n / 10);
      assert r[|r| - 1] == DigitChar(n % 10);
    }
  }

  /** A rendered integer reads back to the same integer. */
  lemma IntToStringRoundTrip(i: int)
    ensures ParseInt(IntToString(i)) == i
  {
    if i < 0 {
      assert IntToString(i)[1..] == Digits(-i);
      DigitsRoundTrip(-i);
    } else {
      DigitsRoundTrip(i);
    }
  }

  /** How `+` renders any operand next to a string. */
  function ToStr(v: JsValue): string {
    match v
    case Undef => "undefined"
    case Null => "null"
    case Str(s) => s
    case Int(i) => IntToString(i)
    case Bool(b) => if b then "true" else "false"
    case Obj(_) => "[object Object]"
  }

  /** `buildModPostfix(modName, modVal)`. */
  function BuildModPostfix(modName: JsValue, modVal: JsValue): (r: string)
    ensures r == "" <==> modVal.Undef? || modVal.Null? || modVal == Bool(false)
    ensures modVal == Bool(true) ==> r == ModDelim + ToStr(modName)
    ensures !modVal.Undef? && !modVal.Null? && !modVal.Bool? ==>
              r == ModDelim + ToStr(modName) + ModDelim + ToStr(modVal)
  {
    if modVal.Undef? || modVal.Null? || modVal == Bool(false) then ""
    else if modVal == Bool(true) then ModDelim + ToStr(modName)
    else ModDelim + ToStr(modName) + ModDelim + ToStr(modVal)
  }

  /** `buildBlockClass(name, modName, modVal)`. */
  function BuildBlockClass(name: string, modName: JsValue, modVal: JsValue): (r: string)
    ensures name <= r
    ensures r == name <==> modVal.Undef? || modVal.Null? || modVal == Bool(false)
  {
    name + BuildModPostfix(modName, modVal)
  }

  /** `buildElemClass(block, name, modName, modVal)`. */
  function BuildElemClass(block: string, name: JsValue, modName: JsValue, modVal: JsValue): (r: string)
    ensures block + ElemDelim + ToStr(name) <= r
    ensures |r| > |block| + 1 && r[|block|..|block| + 2] == ElemDelim
  {
    BuildBlockClass(block, Undef, Undef) + ElemDelim + ToStr(name) + BuildModPostfix(modName, modVal)
  }

  /** The arguments of `buildClass` after its argument shifting. */
  datatype ClassArgs = ClassArgs(elem: JsValue, modName: JsValue, modVal: JsValue)

  /** The argument shifting at the top of `buildClass`: a simple `modName`
      with a non-simple `modVal` means the element was left out; a non-simple
      `modName` is dropped; a truthy non-string element is dropped. */
  function ShiftClassArgs(elem: JsValue, modName: JsValue, modVal: JsValue): ClassArgs
  {
    if IsSimple(modName) then
      if !IsSimple(modVal) then ClassArgs(Undef, elem, modName) else ClassArgs(elem, modName, modVal)
    else if TypeOf(modName) != "undefined" then ClassArgs(elem, Undef, modVal)
    else if Truthy(elem) && TypeOf(elem) != "string" then ClassArgs(Undef, modName, modVal)
    else ClassArgs(elem, modName, modVal)
  }

  /** `buildClass(block, elem, modName, modVal)`. */
  function BuildClass(block: string, elem: JsValue, modName: JsValue, modVal: JsValue): (r: string)
    ensures block <= r
    ensures !Truthy(elem) && !Truthy(modName) ==> r == block
    ensures r != block ==> |r| > |block| && r[|block|] == '_'
  {
    var a := ShiftClassArgs(elem, modName, modVal);
    if !(Truthy(a.elem) || Truthy(a.modName)) then block
    else if Truthy(a.elem) then BuildElemClass(block, a.elem, a.modName, a.modVal)
    else BuildBlockClass(block, a.modName, a.modVal)
  }

  /** With neither element nor modifier, `buildClass` returns the block name. */
  lemma BuildClassBlockOnly(block: string)
    ensures BuildClass(block, Undef, Undef, Undef) == block
  {
  }

  /** With a non-empty element name and simple (or no) modifier arguments,
      `buildClass` yields `block__elem` followed by the modifier postfix. */
  lemma BuildClassElem(block: string, elem: string, modName: JsValue, modVal: JsValue)
    requires elem != ""
    requires (IsSimple(modName) && IsSimple(modVal)) || (modName.Undef? && modVal.Undef?)
    ensures BuildClass(block, Str(elem), modName, modVal)
         == block + ElemDelim + elem + BuildModPostfix(modName, modVal)
  {
  }

  /** Called as `buildClass(block, modName, modVal)`, the arguments shift one
      place and a block modifier class comes out. */
  lemma BuildClassShift(block: string, modName: string, modVal: JsValue)
    requires modName != "" && IsSimple(modVal)
    ensures BuildClass(block, Str(modName), modVal, Undef) == block + BuildModPostfix(Str(modName), modVal)
    ensures modVal.Str? ==> BuildClass(block, Str(modName), modVal, Undef)
                            == block + ModDelim + modName + ModDelim + modVal.s
  {
  }

  /** A left-out modifier name with a value given is not dropped: it is
      rendered as the text `undefined`. */
  lemma BuildClassUndefinedModName(block: string, elem: string, modVal: string)
    requires elem != ""
    ensures BuildClass(block, Str(elem), Undef, Str(modVal))
         == block + ElemDelim + elem + ModDelim + "undefined" + ModDelim + modVal
  {
  }

  /** A defined modifier name that is not simple (`null` or an object) is
      dropped, as if it had been left out, when the element is a string or
      falsy. */
  lemma BuildClassDropsModName(block: string, elem: JsValue, modName: JsValue, modVal: JsValue)
    requires !IsSimple(modName) && !modName.Undef?
    requires !(Truthy(elem) && !elem.Str?)
    ensures BuildClass(block, elem, modName, modVal) == BuildClass(block, elem, Undef, modVal)
  {
  }

  /** With a defined non-simple modifier name the element is kept even when
      it is not a string: only a left-out modifier name drops such an element. */
  lemma BuildClassKeepsObjectElem(block: string, props: seq<(string, JsValue)>, modVal: JsValue)
    ensures BuildClass(block, Obj(props), Null, modVal)
         == block + ElemDelim + "[object Object]" + BuildModPostfix(Undef, modVal)
    ensures BuildClass(block, Obj(props), Undef, modVal) == block
  {
  }

  /** A truthy element that is not a string is dropped when the modifier name
      is left out, and the block name comes out. */
  lemma BuildClassDropsElem(block: string, elem: JsValue, modVal: JsValue)
    requires Truthy(elem) && !elem.Str?
    ensures BuildClass(block, elem, Undef, modVal) == block
  {
  }

  /** The `(name, value)` pairs `for (modName in mods)` visits that pass
      `hasOwnProperty`: an object's own properties, a string's indices, and
      nothing for numbers and booleans. */
  function OwnProperties(mods: JsValue): seq<(string, JsValue)> {
    match mods
    case Obj(props) => props
    case Str(s) => seq(|s|, k requires 0 <= k < |s| => (IntToString(k), Str([s[k]])))
    case _ => []
  }

  /** The class of one modifier of the block, or of the element when `elem` is truthy. */
  function ModClass(block: string, elem: JsValue, name: string, val: JsValue): string {
    if Truthy(elem) then BuildElemClass(block, elem, Str(name), val)
    else BuildBlockClass(block, Str(name), val)
  }

  /** The classes of the truthy modifiers, in order. */
  function ModClassList(block: string, elem: JsValue, props: seq<(string, JsValue)>): (r: seq<string>)
    ensures |r| <= |props|
    ensures (forall k :: 0 <= k < |props| ==> Truthy(props[k].1)) ==> |r| == |props|
    ensures (forall k :: 0 <= k < |props| ==> !Truthy(props[k].1)) <==> r == []
  {
    if props == [] then []
    else
      var rest := ModClassList(block, elem, props[1..]);
      if Truthy(props[0].1) then [ModClass(block, elem, props[0].0, props[0].1)] + rest else rest
  }

  /** The modifier loop of `buildClasses`: each truthy modifier appends a
      space and its class. */
  function ModClasses(block: string, elem: JsValue, props: seq<(string, JsValue)>): string {
    if props == [] then ""
    else
      (if Truthy(props[0].1) then " " + ModClass(block, elem, props[0].0, props[0].1) else "") +
      ModClasses(block, elem, props[1..])
  }

  /** `buildClasses(block, elem, mods)`. */
  function BuildClasses(block: string, elem: JsValue, mods: JsValue): (r: string)
    ensures block <= r
    ensures !Truthy(elem) && !Truthy(mods) ==> r == block
    ensures elem.Str? && elem.s != "" ==> block + ElemDelim + elem.s <= r
  {
    var shifted := Truthy(elem) && TypeOf(elem) != "string";
    var e := if shifted then Undef else elem;
    var m := if shifted then elem else mods;
    var base := BaseClass(block, e);
    if Truthy(m) then base + ModClasses(block, e, OwnProperties(m)) else base
  }

  /** The first class `buildClasses` emits: the element's when `elem` is
      truthy, the block's otherwise, without modifier. */
  function BaseClass(block: string, elem: JsValue): (r: string)
    ensures r == if Truthy(elem) then block + ElemDelim + ToStr(elem) else block
  {
    if Truthy(elem) then BuildElemClass(block, elem, Undef, Undef) else BuildBlockClass(block, Undef, Undef)
  }

  /** Position of the first occurrence of `c`. */
  function IndexOf(s: string, c: char): (i: nat)
    requires c in s
    ensures i < |s| && s[i] == c && c !in s[..i]
  {
    if s[0] == c then 0 else 1 + IndexOf(s[1..], c)
  }

  /** `s.split(' ')`. */
  function SplitSpaces(s: string): (r: seq<string>)
    ensures |r| > 0
    decreases |s|
  {
    if ' ' !in s then [s]
    else
      var i := IndexOf(s, ' ');
      [s[..i]] + SplitSpaces(s[i + 1..])
  }

  /** In `w + [c] + rest` with `c` not in `w`, the first `c` follows `w`. */
  lemma {:induction false} IndexAfter(w: string, c: char, rest: string)
    requires c !in w
    ensures c in w + [c] + rest && IndexOf(w + [c] + rest, c) == |w|
    decreases |w|
  {
    var s := w + [c] + rest;
    assert s[|w|] == c;
    if w != [] {
      assert s[1..] == w[1..] + [c] + rest;
      IndexAfter(w[1..], c, rest);
    }
  }

  /** Splitting `w + " " + rest` at its first space separates `w`. */
  lemma SplitFirst(w: string, rest: string)
    requires ' ' !in w
    ensures SplitSpaces(w + " " + rest) == [w] + SplitSpaces(rest)
  {
    var s := w + " " + rest;
    IndexAfter(w, ' ', rest);
    assert s[..|w|] == w;
    assert s[|w| + 1..] == rest;
  }

  /** Text without spaces or underscores, as `NAME_PATTERN` demands of names. */
  predicate IsName(s: string) {
    ' ' !in s && '_' !in s
  }

  /** Every modifier name and truthy value renders without spaces. */
  predicate SpaceFreeMods(props: seq<(string, JsValue)>) {
    forall k :: 0 <= k < |props| ==> ' ' !in props[k].0 && ' ' !in ToStr(props[k].1)
  }

  /** A modifier class contains no space when its parts contain none. */
  lemma ModClassSpaceFree(block: string, elem: JsValue, name: string, val: JsValue)
    requires ' ' !in block && ' ' !in ToStr(elem) && ' ' !in name && ' ' !in ToStr(val)
    ensures ' ' !in ModClass(block, elem, name, val)
  {
  }

  /** Dropping the first modifier keeps the remaining ones space-free. */
  lemma SpaceFreeTail(props: seq<(string, JsValue)>)
    requires props != [] && SpaceFreeMods(props)
    ensures SpaceFreeMods(props[1..])
    ensures ' ' !in props[0].0 && ' ' !in ToStr(props[0].1)
  {
    forall k | 0 <= k < |props[1..]|
      ensures ' ' !in props[1..][k].0 && ' ' !in ToStr(props[1..][k].1)
    {
      assert props[1..][k] == props[k + 1];
    }
  }

  /** Moving the separator from one side of a concatenation to the other. */
  lemma Regroup(a: string, sep: string, b: string, c: string)
    ensures a + (sep + b + c) == a + sep + (b + c)
  {
  }

  /** The modifier loop's text, appended to a space-free `head` and split on
      spaces, is `head` followed by the list of modifier classes. */
  lemma {:induction false} ModClassesSplit(block: string, elem: JsValue, props: seq<(string, JsValue)>, head: string)
    requires ' ' !in block && ' ' !in ToStr(elem) && ' ' !in head && SpaceFreeMods(props)
    ensures SplitSpaces(head + ModClasses(block, elem, props)) == [head] + ModClassList(block, elem, props)
    decreases |props|
  {
    if props == [] {
      assert head + "" == head;
    } else {
      var p0 := props[0];
      var tail := props[1..];
      var rest := ModClasses(block, elem, tail);
      SpaceFreeTail(props);
      if Truthy(p0.1) {
        var cls := ModClass(block, elem, p0.0, p0.1);
        assert ModClasses(block, elem, props) == " " + cls + rest;
        assert ModClassList(block, elem, props) == [cls] + ModClassList(block, elem, tail);
        ModClassSpaceFree(block, elem, p0.0, p0.1);
        ModClassesSplit(block, elem, tail, cls);
        Regroup(head, " ", cls, rest);
        SplitFirst(head, cls + rest);
      } else {
        assert ModClasses(block, elem, props) == rest;
        assert ModClassList(block, elem, props) == ModClassList(block, elem, tail);
        ModClassesSplit(block, elem, tail, head);
      }
    }
  }

  /** Split on spaces, the result of `buildClasses` is the base class followed
      by the class of each truthy modifier in order, provided no name or value
      contains a space. */
  lemma BuildClassesWords(block: string, elem: JsValue, mods: JsValue)
    requires ' ' !in block && ' ' !in ToStr(elem) && SpaceFreeMods(OwnProperties(mods))
    requires !(Truthy(elem) && !elem.Str?)
    ensures var base := if Truthy(elem) then block + ElemDelim + ToStr(elem) else block;
            SplitSpaces(BuildClasses(block, elem, mods))
              == [base] + (if Truthy(mods) then ModClassList(block, elem, OwnProperties(mods)) else [])
  {
    var base := BaseClass(block, elem);
    assert ' ' !in base by {
      if Truthy(elem) {
        assert base == block + ElemDelim + ToStr(elem);
      }
    }
    if Truthy(mods) {
      assert BuildClasses(block, elem, mods) == base + ModClasses(block, elem, OwnProperties(mods));
      ModClassesSplit(block, elem, OwnProperties(mods), base);
    } else {
      assert BuildClasses(block, elem, mods) == base;
    }
  }

  /** Each class in the modifier list of `buildClasses` is what `buildClass`
      builds for that element and modifier, when the value is simple. */
  lemma {:induction false} ModClassListIsBuildClass(block: string, elem: JsValue, props: seq<(string, JsValue)>)
    requires !(Truthy(elem) && !elem.Str?)
    requires forall k :: 0 <= k < |props| ==> props[k].0 != "" && (Truthy(props[k].1) ==> IsSimple(props[k].1))
    ensures forall w :: w in ModClassList(block, elem, props) <==>
              exists k :: 0 <= k < |props| && Truthy(props[k].1) && w == BuildClass(block, elem, Str(props[k].0), props[k].1)
    decreases |props|
  {
    if props != [] {
      ModClassListIsBuildClass(block, elem, props[1..]);
      var list := ModClassList(block, elem, props);
      var rest := ModClassList(block, elem, props[1..]);
      forall w
        ensures w in list <==>
          exists k :: 0 <= k < |props| && Truthy(props[k].1) && w == BuildClass(block, elem, Str(props[k].0), props[k].1)
      {
        if w in list {
          if Truthy(props[0].1) && w == list[0] {
            assert w == BuildClass(block, elem, Str(props[0].0), props[0].1);
          } else {
            assert w in rest;
            var k :| 0 <= k < |props[1..]| && Truthy(props[1..][k].1)
                     && w == BuildClass(block, elem, Str(props[1..][k].0), props[1..][k].1);
            assert props[1..][k] == props[k + 1];
          }
        }
        if exists k :: 0 <= k < |props| && Truthy(props[k].1) && w == BuildClass(block, elem, Str(props[k].0), props[k].1) {
          var k :| 0 <= k < |props| && Truthy(props[k].1) && w == BuildClass(block, elem, Str(props[k].0), props[k].1);
          if k == 0 {
            assert list[0] == w;
          } else {
            assert props[1..][k - 1] == props[k];
            assert w in rest;
          }
        }
      }
    }
  }

  /** Called as `buildClasses(block, mods)` with an object (or any truthy
      non-string) second argument, the argument is taken as the modifiers and
      the third argument is ignored. */
  lemma BuildClassesShift(block: string, mods: JsValue, ignored: JsValue)
    requires Truthy(mods) && !mods.Str?
    ensures BuildClasses(block, mods, ignored) == BuildClasses(block, Undef, mods)
  {
  }

  /** Split on spaces, `buildClasses(block, mods)` yields the block name
      followed by one block modifier class per truthy own modifier, in order. */
  lemma BuildClassesModsWords(block: string, mods: JsValue, ignored: JsValue)
    requires Truthy(mods) && !mods.Str?
    requires ' ' !in block && SpaceFreeMods(OwnProperties(mods))
    ensures SplitSpaces(BuildClasses(block, mods, ignored)) == [block] + ModClassList(block, Undef, OwnProperties(mods))
  {
    BuildClassesShift(block, mods, ignored);
    BuildClassesWords(block, Undef, mods);
  }

  /** Reads a modifier postfix back into its name and, when present, its value. */
  function ParseModPostfix(s: string): Option<(string, Option<string>)> {
    if |s| == 0 || s[0] != '_' then None
    else
      var t := s[1..];
      if '_' in t then
        var i := IndexOf(t, '_');
        Some((t[..i], Some(t[i + 1..])))
      else Some((t, None))
  }

  /** For a modifier name free of the delimiter, the postfix reads back to the
      name and the rendered value, or to the name alone for `true`, and is
      empty for `null`, `undefined` and `false`. */
  lemma ModPostfixRoundTrip(name: string, val: JsValue)
    requires '_' !in name
    ensures ParseModPostfix(BuildModPostfix(Str(name), val)) ==
              if val.Undef? || val.Null? || val == Bool(false) then None
              else if val == Bool(true) then Some((name, None))
              else Some((name, Some(ToStr(val))))
  {
    var s := BuildModPostfix(Str(name), val);
    if !(val.Undef? || val.Null? || val.Bool?) {
      var t := s[1..];
      assert t == name + "_" + ToStr(val);
      IndexAfter(name, '_', ToStr(val));
      assert t[..|name|] == name;
      assert t[|name| + 1..] == ToStr(val);
    } else if val == Bool(true) {
      assert s[1..] == name;
    }
  }
}
