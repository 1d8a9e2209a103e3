/** Reading JNI method descriptors (section 4.3.3 of the Java Virtual Machine Specification). */
module JniDescriptor {
  import opened Wrappers
  import opened Text

  datatype Base = Primitive(code: char) | Reference(name: string)

  /** A base type under a number of array dimensions. */
  datatype JniType = JniType(arrays: nat, base: Base)

  datatype Error = NotADescriptor | BadType | ReturnCount(n: nat)

  // ---------------------------------------------------------------- the notation

  predicate IsPrimitive(c: char) {
    c == 'Z' || c == 'B' || c == 'C' || c == 'S' || c == 'I' || c == 'J' || c == 'F' || c == 'D' || c == 'V'
  }

  function PrimitiveName(c: char): string
    requires IsPrimitive(c)
  {
    match c
    case 'Z' => "boolean"
    case 'B' => "byte"
    case 'C' => "char"
    case 'S' => "short"
    case 'I' => "int"
    case 'J' => "long"
    case 'F' => "float"
    case 'D' => "double"
    case 'V' => "void"
  }

  /** A type that has a spelling: a known primitive code, or a class name without `;`. */
  predicate WellFormed(t: JniType) {
    if t.base.Primitive? then IsPrimitive(t.base.code) else ';' !in t.base.name
  }

  function Repeat(c: char, n: nat): (r: string)
    ensures |r| == n && forall i :: 0 <= i < n ==> r[i] == c
  {
    seq(n, _ => c)
  }

  /** The descriptor of a type. */
  function Print(t: JniType): string {
    Repeat('[', t.arrays) + if t.base.Primitive? then [t.base.code] else "L" + t.base.name + ";"
  }

  function PrintAll(ts: seq<JniType>): string {
    if ts == [] then "" else Print(ts[0]) + PrintAll(ts[1..])
  }

  /** The part of a class name behind its last slash. */
  function SimpleName(name: string): string {
    var pieces := Split(name, '/');
    pieces[|pieces| - 1]
  }

  function Brackets(n: nat): string { if n == 0 then "" else Brackets(n - 1) + "[]" }

  /** The type as Java source spells it under its imports. */
  function Spelling(t: JniType): string
    requires WellFormed(t)
  {
    (if t.base.Primitive? then PrimitiveName(t.base.code) else SimpleName(t.base.name)) + Brackets(t.arrays)
  }

  function Spellings(ts: seq<JniType>): seq<string>
    requires forall i :: 0 <= i < |ts| ==> WellFormed(ts[i])
  {
    seq(|ts|, i requires 0 <= i < |ts| => Spelling(ts[i]))
  }

  function ArrayRun(s: string, i: nat): (n: nat)
    requires i <= |s|
    ensures i + n <= |s| && (i + n < |s| ==> s[i + n] != '[')
    ensures forall j :: i <= j < i + n ==> s[j] == '['
    decreases |s| - i
  {
    if i < |s| && s[i] == '[' then 1 + ArrayRun(s, i + 1) else 0
  }

  // ------------------------------------------------------------------ one type

  datatype Parsed = Parsed(t: JniType, end: nat)

  /** The type that starts at `i`, and where it ends. */
  function ParseOne(s: string, i: nat): (r: Option<Parsed>)
    requires i < |s|
    ensures r.Some? ==> i < r.value.end <= |s| && WellFormed(r.value.t)
  {
    var arrays := ArrayRun(s, i);
    var j := i + arrays;
    if j >= |s| then None
    else if s[j] == 'L' then
      var end := Find(s, ';', j);
      if end == |s| then None
      else Some(Parsed(JniType(arrays, Reference(s[j + 1..end])), end + 1))
    else if IsPrimitive(s[j]) then
      Some(Parsed(JniType(arrays, Primitive(s[j])), j + 1))
    else None
  }

  /** All types from `i` to the end, or nothing. */
  function Parse(s: string, i: nat): (r: Option<seq<JniType>>)
    requires i <= |s|
    ensures r.Some? ==> forall k :: 0 <= k < |r.value| ==> WellFormed(r.value[k])
    decreases |s| - i
  {
    if i == |s| then Some([])
    else
      var one := ParseOne(s, i);
      if one.None? then None
      else
        var rest := Parse(s, one.value.end);
        if rest.None? then None else Some([one.value.t] + rest.value)
  }

  /** What is read is what is written there. */
  lemma ParseOneSound(s: string, i: nat)
    requires i < |s| && ParseOne(s, i).Some?
    ensures s[i..ParseOne(s, i).value.end] == Print(ParseOne(s, i).value.t)
  {
    hide Find, ArrayRun;
    var p := ParseOne(s, i).value;
    var j := i + p.t.arrays;
    assert s[i..j] == Repeat('[', p.t.arrays);
    assert s[i..p.end] == s[i..j] + s[j..p.end];
    if p.t.base.Reference? {
      assert s[j..p.end] == "L" + p.t.base.name + ";";
    } else {
      assert s[j..p.end] == [s[j]];
    }
  }

  lemma PrintAllCons(t: JniType, rest: seq<JniType>)
    ensures PrintAll([t] + rest) == Print(t) + PrintAll(rest)
  {
    assert ([t] + rest)[1..] == rest;
  }

  lemma ParseCons(s: string, i: nat)
    requires i < |s|
    ensures var one := ParseOne(s, i);
            Parse(s, i) == if one.None? then None else After([one.value.t], Parse(s, one.value.end))
  {
  }

  ghost function After(done: seq<JniType>, rest: Option<seq<JniType>>): Option<seq<JniType>> {
    if rest.Some? then Some(done + rest.value) else None
  }

  lemma SliceJoin(s: string, i: nat, end: nat)
    requires i <= end <= |s|
    ensures s[i..] == s[i..end] + s[end..]
  {
  }

  lemma {:induction false} ParseSound(s: string, i: nat)
    requires i <= |s| && Parse(s, i).Some?
    ensures PrintAll(Parse(s, i).value) == s[i..]
    decreases |s| - i
  {
    if i < |s| {
      hide ParseOne, Print, Parse, PrintAll, WellFormed;
      ParseCons(s, i);
      var one := ParseOne(s, i).value;
      var rest := Parse(s, one.end).value;
      ParseOneSound(s, i);
      ParseSound(s, one.end);
      PrintAllCons(one.t, rest);
      SliceJoin(s, i, one.end);
    }
  }

  lemma {:induction false} RunOfRepeat(s: string, i: nat, n: nat)
    requires i + n < |s| && s[i + n] != '[' && forall j :: i <= j < i + n ==> s[j] == '['
    ensures ArrayRun(s, i) == n
    decreases n
  {
    if n > 0 {
      RunOfRepeat(s, i + 1, n - 1);
    }
  }

  /** `s` reads `p` at position `i`. */
  ghost predicate ReadsAt(s: string, i: nat, p: string) {
    i + |p| <= |s| && s[i..i + |p|] == p
  }

  lemma ReadsParts(s: string, i: nat, p: string, q: string)
    requires ReadsAt(s, i, p + q)
    ensures ReadsAt(s, i, p) && ReadsAt(s, i + |p|, q)
  {
    assert s[i..i + |p|] == s[i..i + |p + q|][..|p|] == p;
    assert s[i + |p|..i + |p| + |q|] == s[i..i + |p + q|][|p|..] == q;
  }

  lemma ReadsThenRest(s: string, i: nat, p: string, q: string)
    requires i <= |s| && s[i..] == p + q
    ensures i + |p| <= |s| && ReadsAt(s, i, p) && s[i + |p|..] == q
  {
    assert s[i..i + |p|] == s[i..][..|p|];
    assert s[i + |p|..] == s[i..][|p|..];
  }

  lemma ArraysEnd(s: string, i: nat, arrays: nat, base: string)
    requires ReadsAt(s, i, Repeat('[', arrays)) && ReadsAt(s, i + arrays, base) && base != "" && base[0] != '['
    ensures i < |s| && ArrayRun(s, i) == arrays && s[i + arrays] == base[0]
  {
    var j := i + arrays;
    assert s[j] == s[j..j + |base|][0] == base[0];
    forall k | i <= k < j ensures s[k] == '[' {
      assert s[k] == s[i..j][k - i];
    }
    RunOfRepeat(s, i, arrays);
  }

  /** Reading undoes printing, whatever follows. */
  lemma ParseOnePrinted(s: string, i: nat, t: JniType)
    requires WellFormed(t) && ReadsAt(s, i, Print(t))
    ensures i < |s| && ParseOne(s, i) == Some(Parsed(t, i + |Print(t)|))
  {
    hide ReadsAt, ArrayRun, Find, Repeat;
    var j := i + t.arrays;
    var base := if t.base.Primitive? then [t.base.code] else "L" + t.base.name + ";";
    assert Print(t) == Repeat('[', t.arrays) + base;
    hide Print;
    ReadsParts(s, i, Repeat('[', t.arrays), base);
    ArraysEnd(s, i, t.arrays, base);
    if t.base.Reference? {
      NameEnds(s, j, t.base.name);
    }
  }

  lemma NameEnds(s: string, j: nat, name: string)
    requires ';' !in name && ReadsAt(s, j, "L" + name + ";")
    ensures Find(s, ';', j) == j + 1 + |name| < |s| && s[j + 1..j + 1 + |name|] == name
  {
    ReadsParts(s, j, "L" + name, ";");
    ReadsParts(s, j, "L", name);
    var end := j + 1 + |name|;
    assert s[end] == s[end..end + 1][0] == ';' && s[j] == s[j..j + 1][0] == 'L';
    forall k | j <= k < end ensures s[k] != ';' {
      if k > j {
        assert s[k] == s[j + 1..end][k - j - 1] == name[k - j - 1];
      }
    }
  }

  lemma {:induction false} ParsePrinted(s: string, i: nat, ts: seq<JniType>)
    requires (forall k :: 0 <= k < |ts| ==> WellFormed(ts[k])) && i <= |s| && s[i..] == PrintAll(ts)
    ensures Parse(s, i) == Some(ts)
    decreases |ts|
  {
    if ts != [] {
      hide ParseOne, Print, WellFormed, PrintAll, Parse, ReadsAt;
      var t, rest := ts[0], ts[1..];
      assert ts == [t] + rest;
      PrintAllCons(t, rest);
      var end := i + |Print(t)|;
      ReadsThenRest(s, i, Print(t), PrintAll(rest));
      ParseOnePrinted(s, i, t);
      ParsePrinted(s, end, rest);
      ParseCons(s, i);
    }
  }

  // ------------------------------------------------------------------ the loops

  /** One type: its array markers, then its base. */
  method DecodeOne(text: string, start: nat) returns (r: Option<(string, nat)>)
    requires start < |text|
    ensures var one := ParseOne(text, start);
            r == if one.Some? then Some((Spelling(one.value.t), one.value.end)) else None
  {
    hide PrimitiveName, SimpleName, Brackets;
    var index, arrays := start, 0;
    while index < |text| && text[index] == '['
      invariant start <= index <= |text| && arrays == index - start
      invariant ArrayRun(text, start) == arrays + ArrayRun(text, index)
    {
      arrays := arrays + 1;
      index := index + 1;
    }
    if index >= |text| {
      return None;
    }
    var c := text[index];
    if c == 'L' {
      var end := Find(text, ';', index);
      if end == |text| {
        return None;
      }
      return Some((SimpleName(text[index + 1..end]) + Brackets(arrays), end + 1));
    }
    if !IsPrimitive(c) {
      return None;
    }
    r := Some((PrimitiveName(c) + Brackets(arrays), index + 1));
  }

  /** The types of a sequence in Java spelling. */
  method DecodeSequence(text: string) returns (r: Result<seq<string>, Error>)
    ensures var parsed := Parse(text, 0);
            r == if parsed.Some? then Ok(Spellings(parsed.value)) else Err(BadType)
  {
    hide ParseOne, WellFormed, Spelling;
    var types: seq<string> := [];
    var index := 0;
    ghost var done: seq<JniType> := [];
    NothingDone(Parse(text, 0));
    while index < |text|
      invariant index <= |text| && (forall k :: 0 <= k < |done| ==> WellFormed(done[k])) && types == Spellings(done)
      invariant Parse(text, 0) == After(done, Parse(text, index))
      decreases |text| - index
    {
      var one := DecodeOne(text, index);
      if one.None? {
        return Err(BadType);
      }
      ghost var t := ParseOne(text, index).value.t;
      OneMore(done, t, Parse(text, one.value.1));
      types := types + [one.value.0];
      done := done + [t];
      index := one.value.1;
    }
    assert done + [] == done;
    r := Ok(types);
  }

  lemma NothingDone(rest: Option<seq<JniType>>)
    ensures After([], rest) == rest
  {
    if rest.Some? {
      assert [] + rest.value == rest.value;
    }
  }

  lemma OneMore(done: seq<JniType>, t: JniType, rest: Option<seq<JniType>>)
    ensures After(done, After([t], rest)) == After(done + [t], rest)
  {
    if rest.Some? {
      assert done + ([t] + rest.value) == (done + [t]) + rest.value;
    }
  }

  /** What a descriptor says, or why it says nothing. */
  ghost function Meaning(descriptor: string): Result<(seq<string>, string), Error> {
    var close := Find(descriptor, ')', 0);
    if descriptor == "" || descriptor[0] != '(' || close == |descriptor| then Err(NotADescriptor)
    else
      var parameters, results := Parse(descriptor[1..close], 0), Parse(descriptor[close + 1..], 0);
      if parameters.None? || results.None? then Err(BadType)
      else if |results.value| != 1 then Err(ReturnCount(|results.value|))
      else Ok((Spellings(parameters.value), Spelling(results.value[0])))
  }

  method DecodeDescriptor(descriptor: string) returns (r: Result<(seq<string>, string), Error>)
    ensures r == Meaning(descriptor)
  {
    if descriptor == "" || descriptor[0] != '(' {
      return Err(NotADescriptor);
    }
    var close := Find(descriptor, ')', 0);
    if close == |descriptor| {
      return Err(NotADescriptor);
    }
    var parameters := DecodeSequence(descriptor[1..close]);
    if parameters.Err? {
      return Err(parameters.error);
    }
    var results := DecodeSequence(descriptor[close + 1..]);
    if results.Err? {
      return Err(results.error);
    }
    if |results.value| != 1 {
      return Err(ReturnCount(|results.value|));
    }
    r := Ok((parameters.value, results.value[0]));
  }

  ghost function PrintMethod(parameters: seq<JniType>, result: JniType): string {
    "(" + PrintAll(parameters) + ")" + Print(result)
  }

  /** Types a method descriptor can carry as parameters. */
  ghost predicate ParameterTypes(ts: seq<JniType>) {
    forall k :: 0 <= k < |ts| ==> WellFormed(ts[k]) && (ts[k].base.Reference? ==> ')' !in ts[k].base.name)
  }

  lemma {:induction false} NoParenthesis(ts: seq<JniType>)
    requires ParameterTypes(ts)
    ensures ')' !in PrintAll(ts)
  {
    if ts != [] {
      NoParenthesis(ts[1..]);
      assert ParameterTypes([ts[0]]);
    }
  }

  /** The parts of a printed descriptor, where the decoder looks for them. */
  lemma MethodParts(parameters: seq<JniType>, result: JniType)
    requires ParameterTypes(parameters)
    ensures var d, inner, tail := PrintMethod(parameters, result), PrintAll(parameters), Print(result);
      && |inner| + 2 <= |d| && d[0] == '(' && Find(d, ')', 0) == |inner| + 1
      && d[1..|inner| + 1] == inner && d[|inner| + 2..] == tail
  {
    NoParenthesis(parameters);
    hide Print, PrintAll, ParameterTypes;
    Enclosed(PrintAll(parameters), Print(result));
  }

  lemma Enclosed(inner: string, tail: string)
    requires ')' !in inner
    ensures var d := "(" + inner + ")" + tail;
      && d[0] == '(' && Find(d, ')', 0) == |inner| + 1 && d[1..|inner| + 1] == inner && d[|inner| + 2..] == tail
  {
    var d, close := "(" + inner + ")" + tail, |inner| + 1;
    assert d[close] == ')' && d[0] == '(';
    forall j | 0 < j < close ensures d[j] != ')' {
      assert d[j] == inner[j - 1];
    }
  }

  /** Decoding undoes printing, for every parameter list and result type. */
  lemma DecodePrinted(parameters: seq<JniType>, result: JniType)
    requires ParameterTypes(parameters) && WellFormed(result)
    ensures Meaning(PrintMethod(parameters, result)) == Ok((Spellings(parameters), Spelling(result)))
  {
    var inner, tail := PrintAll(parameters), Print(result);
    MethodParts(parameters, result);
    hide Parse, Print, PrintAll, WellFormed, PrintMethod;
    assert inner[0..] == inner && tail[0..] == tail;
    ParsePrinted(inner, 0, parameters);
    PrintSingle(result);
    ParsePrinted(tail, 0, [result]);
  }

  lemma PrintSingle(t: JniType)
    ensures PrintAll([t]) == Print(t)
  {
    assert PrintAll([t]) == Print(t) + PrintAll([]);
    assert Print(t) + "" == Print(t);
  }

  /** Types printed without a closing parenthesis have none in their names. */
  lemma {:induction false} NamesHaveNone(ts: seq<JniType>)
    requires (forall k :: 0 <= k < |ts| ==> WellFormed(ts[k])) && ')' !in PrintAll(ts)
    ensures ParameterTypes(ts)
  {
    if ts != [] {
      var t := ts[0];
      NamesHaveNone(ts[1..]);
      assert forall c :: c in Print(t) ==> c in PrintAll(ts);
      if t.base.Reference? {
        assert forall c :: c in t.base.name ==> c in Print(t);
      }
      assert ts == [t] + ts[1..];
    }
  }

  /** And nothing else decodes: every accepted text is the print of some method type. */
  lemma DecodedIsPrinted(descriptor: string) returns (parameters: seq<JniType>, result: JniType)
    requires Meaning(descriptor).Ok?
    ensures ParameterTypes(parameters) && WellFormed(result)
    ensures descriptor == PrintMethod(parameters, result)
    ensures Meaning(descriptor).value == (Spellings(parameters), Spelling(result))
  {
    hide Parse, Print, PrintAll, WellFormed, Spelling, ParameterTypes;
    var close := Find(descriptor, ')', 0);
    var inner, tail := descriptor[1..close], descriptor[close + 1..];
    parameters := Parse(inner, 0).value;
    var results := Parse(tail, 0).value;
    result := results[0];
    ParseSound(inner, 0);
    ParseSound(tail, 0);
    PrintSingle(result);
    assert results == [result] && inner[0..] == inner && tail[0..] == tail;
    assert descriptor == "(" + inner + ")" + tail;
    NamesHaveNone(parameters);
  }

  /** The accepted texts are exactly the printed method types. */
  lemma DecodesIffPrinted(descriptor: string)
    ensures Meaning(descriptor).Ok?
       <==> exists parameters, result ::
              ParameterTypes(parameters) && WellFormed(result) && descriptor == PrintMethod(parameters, result)
  {
    hide Meaning, ParameterTypes, WellFormed, PrintMethod;
    if Meaning(descriptor).Ok? {
      var parameters, result := DecodedIsPrinted(descriptor);
    }
    forall parameters, result
      | ParameterTypes(parameters) && WellFormed(result) && descriptor == PrintMethod(parameters, result)
      ensures Meaning(descriptor).Ok?
    {
      DecodePrinted(parameters, result);
    }
  }

  // ------------------------------------------------------------ void as a parameter

  /** Void stands nowhere but alone, as the result. */
  ghost predicate VoidOnlyAsResult(parameters: seq<JniType>, result: JniType) {
    && (forall k :: 0 <= k < |parameters| ==> parameters[k].base != Primitive('V'))
    && (result.base == Primitive('V') ==> result.arrays == 0)
  }

  /** A `V` outside the class names, which run from an `L` to the next `;`. */
  predicate HasVoidCode(s: string, inName: bool) {
    s != "" && ((!inName && s[0] == 'V') || HasVoidCode(s[1..], if inName then s[0] != ';' else s[0] == 'L'))
  }

  lemma {:induction false} SkipArrays(n: nat, rest: string)
    ensures HasVoidCode(Repeat('[', n) + rest, false) <==> HasVoidCode(rest, false)
  {
    var s := Repeat('[', n) + rest;
    if n == 0 {
      assert s == rest;
    } else {
      assert s[1..] == Repeat('[', n - 1) + rest;
      SkipArrays(n - 1, rest);
    }
  }

  lemma {:induction false} SkipName(name: string, rest: string)
    requires ';' !in name
    ensures HasVoidCode(name + (";" + rest), true) <==> HasVoidCode(rest, false)
  {
    var s := name + (";" + rest);
    if name == "" {
      assert s[1..] == rest;
    } else {
      assert s[1..] == name[1..] + (";" + rest);
      SkipName(name[1..], rest);
    }
  }

  lemma SkipType(t: JniType, rest: string)
    requires WellFormed(t)
    ensures HasVoidCode(Print(t) + rest, false) <==> t.base == Primitive('V') || HasVoidCode(rest, false)
  {
    hide Repeat;
    var base := if t.base.Primitive? then [t.base.code] else "L" + t.base.name + ";";
    assert Print(t) + rest == Repeat('[', t.arrays) + (base + rest);
    SkipArrays(t.arrays, base + rest);
    if t.base.Primitive? {
      assert (base + rest)[1..] == rest;
    } else {
      assert (base + rest)[1..] == t.base.name + (";" + rest);
      SkipName(t.base.name, rest);
    }
  }

  lemma {:induction false} VoidCodes(ts: seq<JniType>)
    requires forall k :: 0 <= k < |ts| ==> WellFormed(ts[k])
    ensures HasVoidCode(PrintAll(ts), false) <==> exists k :: 0 <= k < |ts| && ts[k].base == Primitive('V')
  {
    hide Print, WellFormed;
    if ts != [] {
      SkipType(ts[0], PrintAll(ts[1..]));
      VoidCodes(ts[1..]);
      assert forall k :: 0 < k < |ts| ==> ts[k] == ts[1..][k - 1];
    }
  }

  /** Every accepted descriptor keeps void for the result exactly when its parameter text has
      no `V` outside class names and its result text has none behind an array marker. */
  lemma VoidExact(parameters: seq<JniType>, result: JniType)
    requires ParameterTypes(parameters) && WellFormed(result)
    ensures var d := PrintMethod(parameters, result);
            var close := Find(d, ')', 0);
            && close + 1 < |d|
            && (VoidOnlyAsResult(parameters, result) <==>
                  && !HasVoidCode(d[1..close], false)
                  && (HasVoidCode(d[close + 1..], false) ==> d[close + 1] == 'V'))
  {
    MethodParts(parameters, result);
    VoidCodes(parameters);
    PrintSingle(result);
    VoidCodes([result]);
    FirstOfPrint(result);
    hide Print, PrintAll, HasVoidCode, WellFormed, PrintMethod;
    var d, tail := PrintMethod(parameters, result), Print(result);
    assert tail[0] == d[Find(d, ')', 0) + 1];
    assert HasVoidCode(tail, false) <==> result.base == Primitive('V');
  }

  lemma FirstOfPrint(t: JniType)
    requires WellFormed(t)
    ensures Print(t) != "" && (t.base == Primitive('V') ==> (Print(t)[0] == 'V' <==> t.arrays == 0))
  {
    if t.arrays > 0 {
      assert Print(t)[0] == '[';
    }
  }

  /** The decoder accepts void as a parameter type. */
  lemma VoidParameterDecodes()
    ensures Meaning("(V)V") == Ok((["void"], "void"))
  {
    var void := JniType(0, Primitive('V'));
    DecodePrinted([void], void);
    PrintSingle(void);
    assert Print(void) == "V" && Spelling(void) == "void";
    assert PrintMethod([void], void) == "(V)V";
    assert Spellings([void]) == ["void"];
  }

  // ----------------------------------------------------------------- the spellings

  /** The nine primitive codes and their spellings. */
  lemma PrimitiveSpellings(k: nat)
    requires k < 9
    ensures var codes := "ZBCSIJFDV";
      var names := ["boolean", "byte", "char", "short", "int", "long", "float", "double", "void"];
      Spelling(JniType(0, Primitive(codes[k]))) == names[k]
    ensures forall c :: IsPrimitive(c) <==> c in "ZBCSIJFDV"
  {
    assert Brackets(0) == "";
  }

  /** A class is spelled by what stands behind the last slash of its name. */
  lemma ReferenceSpelling(package: string, name: string)
    requires '/' !in name && ';' !in package && ';' !in name
    ensures Spelling(JniType(0, Reference(name))) == name
    ensures Spelling(JniType(0, Reference(package + "/" + name))) == name
  {
    var pieces := Split(package, '/');
    JoinSplit(package, '/');
    JoinSnoc(pieces, name, '/');
    SplitJoin(pieces + [name], '/');
    assert package + "/" + name == package + ['/'] + name;
    assert Split(name, '/') == [name];
  }

  /** Every array dimension adds a pair of brackets, and a bracket to the descriptor. */
  lemma ArraySpelling(t: JniType)
    requires WellFormed(t)
    ensures Spelling(JniType(t.arrays + 1, t.base)) == Spelling(t) + "[]"
    ensures Print(JniType(t.arrays + 1, t.base)) == "[" + Print(t)
  {
    assert Repeat('[', t.arrays + 1) == ['['] + Repeat('[', t.arrays);
  }

  /** How types without array dimensions are written. */
  lemma BaseAlone(c: char, name: string)
    ensures Print(JniType(0, Primitive(c))) == [c]
    ensures Print(JniType(0, Reference(name))) == "L" + name + ";"
  {
    assert Repeat('[', 0) == "";
  }
}
