/** Canonical JSON text and the content identities computed from it (sections 4 to 7 of
    RFC 8259 for the notation). */
module CanonicalJson {
  import opened Wrappers
  import opened Text
  import opened Numerals
  import opened JsonNotation
  import opened ManifestFields

  predicate FloatFree(v: Json) {
    match v
    case Float => false
    case Arr(items) => forall i :: 0 <= i < |items| ==> FloatFree(items[i])
    case Obj(members) => forall k :: k in members ==> FloatFree(members[k])
    case _ => true
  }

  // ------------------------------------------------------------------- key order

  /** Byte order of the UTF-8 texts, which is code-point order. */
  predicate Less(a: string, b: string) {
    if b == "" then false
    else if a == "" then true
    else a[0] < b[0] || (a[0] == b[0] && Less(a[1..], b[1..]))
  }

  lemma {:induction false} LessTransitive(a: string, b: string, c: string)
    requires Less(a, b) && Less(b, c)
    ensures Less(a, c)
    decreases |a|
  {
    if a != "" && a[0] == b[0] && b[0] == c[0] {
      LessTransitive(a[1..], b[1..], c[1..]);
    }
  }

  lemma {:induction false} LessTotal(a: string, b: string)
    ensures Less(a, b) || Less(b, a) || a == b
    ensures !(Less(a, b) && Less(b, a)) && !Less(a, a)
    decreases |a|
  {
    if a != "" {
      LessTotal(a[1..], if b != "" then b[1..] else "");
      if b != "" && a[0] == b[0] && a[1..] == b[1..] {
        assert a == [a[0]] + a[1..] && b == [b[0]] + b[1..];
      }
    }
  }

  /** The order is settled at the first difference: a smaller character there, or the end of the
      shorter text. */
  lemma {:induction false} LessAt(a: string, b: string)
    ensures Less(a, b) <==> exists k :: 0 <= k <= |a| && k < |b| && a[..k] == b[..k] && (k == |a| || a[k] < b[k])
    decreases |a|
  {
    if a == "" || b == "" {
      assert a[..0] == b[..0];
    } else {
      LessAt(a[1..], b[1..]);
      assert a[..0] == b[..0];
      forall k | 0 <= k <= |a[1..]| && k < |b[1..]|
        ensures a[0] == b[0] && a[1..][..k] == b[1..][..k] <==> a[..k + 1] == b[..k + 1]
      {
        assert a[..k + 1] == [a[0]] + a[1..][..k] && b[..k + 1] == [b[0]] + b[1..][..k];
        if a[..k + 1] == b[..k + 1] {
          assert a[0] == a[..k + 1][0] == b[..k + 1][0] == b[0];
          assert a[1..][..k] == a[..k + 1][1..] && b[1..][..k] == b[..k + 1][1..];
        }
      }
      if k :| 0 <= k <= |a| && k < |b| && a[..k] == b[..k] && (k == |a| || a[k] < b[k]) {
        if k > 0 {
          assert a[..(k - 1) + 1] == b[..(k - 1) + 1];
          assert a[1..][..k - 1] == b[1..][..k - 1];
        }
      }
      if k :| a[0] == b[0] && 0 <= k <= |a[1..]| && k < |b[1..]| && a[1..][..k] == b[1..][..k]
              && (k == |a[1..]| || a[1..][k] < b[1..][k]) {
        assert a[..k + 1] == b[..k + 1];
      }
    }
  }

  ghost predicate Sorted(keys: seq<string>) {
    forall i, j :: 0 <= i < j < |keys| ==> Less(keys[i], keys[j])
  }

  /** A sorted sequence is determined by its elements. */
  lemma {:induction false} SortedUnique(a: seq<string>, b: seq<string>)
    requires Sorted(a) && Sorted(b) && forall k :: k in a <==> k in b
    ensures a == b
    decreases |a|
  {
    assert b != [] ==> b[0] in b;
    if a != [] {
      assert a[0] in a;
      HeadAgrees(a, b);
      forall k ensures k in a[1..] <==> k in b[1..] {
        TailHas(a, k);
        TailHas(b, k);
      }
      SortedUnique(a[1..], b[1..]);
      assert a == [a[0]] + a[1..] && b == [b[0]] + b[1..];
    }
  }

  lemma HeadAgrees(a: seq<string>, b: seq<string>)
    requires Sorted(a) && Sorted(b) && a != [] && b != [] && forall k :: k in a <==> k in b
    ensures a[0] == b[0]
  {
    assert a[0] in b && b[0] in a;
    var i :| 0 <= i < |b| && b[i] == a[0];
    var j :| 0 <= j < |a| && a[j] == b[0];
    LessTotal(a[0], b[0]);
  }

  lemma TailHas(a: seq<string>, k: string)
    requires Sorted(a) && a != []
    ensures k in a[1..] <==> k in a && k != a[0]
  {
    if k in a[1..] {
      var i :| 1 <= i < |a| && a[i] == k;
      LessTotal(a[0], k);
    }
  }

  /** Put a new key in its place. */
  function Insert(k: string, keys: seq<string>): seq<string> {
    if keys == [] || Less(k, keys[0]) then [k] + keys else [keys[0]] + Insert(k, keys[1..])
  }

  lemma {:induction false} InsertSorts(k: string, keys: seq<string>)
    requires Sorted(keys) && k !in keys
    ensures Sorted(Insert(k, keys)) && forall x :: x in Insert(k, keys) <==> x == k || x in keys
  {
    if keys != [] && !Less(k, keys[0]) {
      InsertSorts(k, keys[1..]);
      LessTotal(k, keys[0]);
      var r := Insert(k, keys[1..]);
      assert keys == [keys[0]] + keys[1..];
      forall j | 0 <= j < |r| ensures Less(keys[0], r[j]) {
        assert r[j] in r;
        if r[j] != k {
          var i :| 0 <= i < |keys[1..]| && keys[1..][i] == r[j];
        }
      }
    } else if keys != [] {
      forall j | 0 <= j < |keys| ensures Less(k, keys[j]) {
        if j > 0 {
          LessTransitive(k, keys[0], keys[j]);
        }
      }
    }
  }

  /** The names of an object in canonical order. */
  ghost function SortedKeys(keys: set<string>): (r: seq<string>)
    ensures Sorted(r) && forall k :: k in r <==> k in keys
  {
    if keys == {} then []
    else
      var k :| k in keys;
      var rest := SortedKeys(keys - {k});
      InsertSorts(k, rest);
      Insert(k, rest)
  }

  /** Collect the names in whatever order the map yields them, and sort. */
  method CollectSorted(keys: set<string>) returns (r: seq<string>)
    ensures r == SortedKeys(keys)
  {
    r := [];
    var left := keys;
    while left != {}
      invariant left <= keys && Sorted(r) && forall k :: k in r <==> k in keys - left
    {
      var k :| k in left;
      InsertSorts(k, r);
      r := Insert(k, r);
      left := left - {k};
    }
    SortedUnique(r, SortedKeys(keys));
  }

  // --------------------------------------------------------------------- printing

  /** One character of a JSON string. */
  function Escape(c: char): string {
    if c == '"' then "\\\""
    else if c == '\\' then "\\\\"
    else if c == '\U{8}' then "\\b"
    else if c == '\U{c}' then "\\f"
    else if c == '\n' then "\\n"
    else if c == '\r' then "\\r"
    else if c == '\t' then "\\t"
    else if c < ' ' then ['\\', 'u', '0', '0', DigitChar(c as nat / 16), DigitChar(c as nat % 16)]
    else [c]
  }

  /** The characters of a string from `i` on, and its closing quote. */
  function Quoted(s: string): string {
    if s == "" then ['"'] else Escape(s[0]) + Quoted(s[1..])
  }

  function PrintString(s: string): string { ['"'] + Quoted(s) }

  function PrintInt(n: int): string { if n < 0 then ['-'] + Decimal(-n) else Decimal(n) }

  /** The canonical text of a value. */
  ghost function Print(v: Json): string
    requires FloatFree(v)
    decreases v
  {
    match v
    case Null => "null"
    case Bool(b) => if b then "true" else "false"
    case Int(n) => PrintInt(n)
    case Str(s) => PrintString(s)
    case Arr(items) => ['['] + PrintItems(v, 0)
    case Obj(members) => ['{'] + PrintMembers(v, SortedKeys(members.Keys), 0)
  }

  /** The items of an array from `i` on, and its closing bracket. */
  ghost function PrintItems(v: Json, i: nat): string
    requires FloatFree(v) && v.Arr? && i <= |v.items|
    decreases v, |v.items| - i
  {
    if i == |v.items| then [']']
    else Comma(i) + Print(v.items[i]) + PrintItems(v, i + 1)
  }

  /** The members of an object from `i` on, and its closing brace. */
  ghost function PrintMembers(v: Json, keys: seq<string>, i: nat): string
    requires FloatFree(v) && v.Obj? && i <= |keys| && forall k :: k in keys ==> k in v.members
    decreases v, |keys| - i
  {
    if i == |keys| then ['}']
    else Comma(i) + PrintString(keys[i]) + [':'] + Print(v.members[keys[i]]) + PrintMembers(v, keys, i + 1)
  }

  function Comma(i: nat): string { if i == 0 then "" else [','] }

  // --------------------------------------------------------------- reading it back

  /** What can follow a value inside a larger text: nothing, or a closing character. */
  predicate Stops(tail: string) {
    tail == "" || tail[0] == ',' || tail[0] == ']' || tail[0] == '}'
  }

  /** Which form an escape takes: the character itself, a backslash and a letter, or four
      lower-case hexadecimal digits. */
  lemma EscapeForms(c: char)
    ensures |Escape(c)| == 1 <==> c >= ' ' && c != '"' && c != '\\'
    ensures |Escape(c)| == 2 <==> c in {'"', '\\', '\U{8}', '\U{c}', '\n', '\r', '\t'}
    ensures |Escape(c)| in {1, 2, 6}
    ensures |Escape(c)| == 6 ==> Escape(c)[..4] == "\\u00"
    ensures |Escape(c)| == 6 ==> forall i :: 4 <= i < 6 ==> IsDigit(Escape(c)[i]) || 'a' <= Escape(c)[i] <= 'f'
  {
    if |Escape(c)| == 6 {
      DigitReads(c as nat / 16);
      DigitReads(c as nat % 16);
    }
  }

  /** The reader undoes every escape. */
  lemma EscapeReads(c: char, tail: string)
    ensures ReadChars(Escape(c) + tail) == Cons(c, ReadChars(tail))
  {
    var s := Escape(c) + tail;
    assert s[|Escape(c)|..] == tail;
    EscapeForms(c);
    if |Escape(c)| == 6 {
      DigitReads(0);
      DigitReads(c as nat / 16);
      DigitReads(c as nat % 16);
      assert s[2] == '0' && s[3] == '0' && s[4] == DigitChar(c as nat / 16) && s[5] == DigitChar(c as nat % 16);
      assert CodeUnit(s[2], s[3], s[4], s[5]) == c as nat;
    }
  }

  lemma {:induction false} QuotedReads(s: string, tail: string)
    ensures ReadChars(Quoted(s) + tail) == Some(Read(s, tail))
  {
    hide ReadChars, Escape;
    if s == "" {
      QuoteEnds(tail);
    } else {
      assert Quoted(s) + tail == Escape(s[0]) + (Quoted(s[1..]) + tail);
      EscapeReads(s[0], Quoted(s[1..]) + tail);
      QuotedReads(s[1..], tail);
      assert s == [s[0]] + s[1..];
    }
  }

  lemma QuoteEnds(tail: string)
    ensures ReadChars(Quoted("") + tail) == Some(Read("", tail))
  {
    assert (['"'] + tail)[1..] == tail;
  }

  lemma {:induction false} DigitRunIs(s: string, n: nat)
    requires n <= |s| && (n < |s| ==> !IsDigit(s[n])) && forall i :: 0 <= i < n ==> IsDigit(s[i])
    ensures DigitRun(s) == n
  {
    if n > 0 {
      DigitRunIs(s[1..], n - 1);
    }
  }

  /** Digits without a leading zero, in front of anything that is no digit. */
  lemma DigitsRead(d: string, tail: string)
    requires d != "" && (|d| > 1 ==> d[0] != '0') && forall i :: 0 <= i < |d| ==> IsDigit(d[i])
    requires tail != "" ==> !IsDigit(tail[0])
    ensures ReadNumber(d + tail) == Some(Read(Int(Value(d, 10)), tail))
  {
    hide Value, DigitRun;
    var digits := d + tail;
    DigitRunIs(digits, |d|);
    assert digits[0] == d[0] && digits[..|d|] == d && digits[|d|..] == tail;
  }

  /** A minus in front of such digits. */
  lemma MinusReads(s: string)
    requires s != "" && IsDigit(s[0]) && ReadNumber(s).Some?
    ensures ReadNumber(['-'] + s) == Some(Read(Int(-ReadNumber(s).value.value.n), ReadNumber(s).value.rest))
  {
    hide Value, DigitRun;
    assert (['-'] + s)[0] == '-' && (['-'] + s)[1..] == s;
  }

  /** The reader finds the number that was written. */
  lemma NumberReads(n: int, tail: string)
    requires Stops(tail)
    ensures ReadNumber(PrintInt(n) + tail) == Some(Read(Int(n), tail))
    ensures PrintInt(n)[0] == '-' || IsDigit(PrintInt(n)[0])
  {
    hide Value, Decimal, ReadNumber;
    var m: nat := if n < 0 then -n else n;
    DecimalDigits(m);
    DecimalValue(m);
    DigitsRead(Decimal(m), tail);
    if n < 0 {
      assert PrintInt(n) + tail == ['-'] + (Decimal(m) + tail);
      MinusReads(Decimal(m) + tail);
    }
  }

  /** How a value's text starts. */
  lemma PrintLead(v: Json)
    requires FloatFree(v)
    ensures Print(v) != "" && Print(v)[0] !in {']', '}', ','}
    ensures v.Int? ==> Print(v)[0] == '-' || IsDigit(Print(v)[0])
  {
    if v.Int? {
      NumberReads(v.n, "");
    }
  }

  lemma WordReads(tail: string)
    ensures ReadValue("null" + tail) == Some(Read(Null, tail))
    ensures ReadValue("true" + tail) == Some(Read(Bool(true), tail))
    ensures ReadValue("false" + tail) == Some(Read(Bool(false), tail))
  {
    assert ("null" + tail)[4..] == tail && ("null" + tail)[0] == 'n';
    assert ("true" + tail)[4..] == tail && ("true" + tail)[0] == 't';
    assert ("false" + tail)[5..] == tail && ("false" + tail)[0] == 'f';
  }

  /** A value that is no word is told by its first character. */
  lemma LeadReads(c: char, t: string)
    ensures c == '"' && ReadChars(t).Some? ==>
              ReadValue([c] + t) == Some(Read(Str(ReadChars(t).value.value), ReadChars(t).value.rest))
    ensures c == '[' && ReadItems(t, true).Some? ==>
              ReadValue([c] + t) == Some(Read(Arr(ReadItems(t, true).value.value), ReadItems(t, true).value.rest))
    ensures c == '{' && ReadMembers(t, true).Some? ==>
              ReadValue([c] + t) == Some(Read(Obj(ReadMembers(t, true).value.value), ReadMembers(t, true).value.rest))
    ensures c == '-' || IsDigit(c) ==> ReadValue([c] + t) == ReadNumber([c] + t)
  {
    hide ReadChars, ReadItems, ReadMembers, ReadNumber;
    var s := [c] + t;
    assert s[0] == c && s[1..] == t;
  }

  lemma ScalarReads(v: Json, tail: string)
    requires FloatFree(v) && Stops(tail) && !v.Arr? && !v.Obj?
    ensures ReadValue(Print(v) + tail) == Some(Read(v, tail))
  {
    hide PrintInt, Quoted, Stops, ReadNumber, ReadChars, ReadItems, ReadMembers, ReadValue;
    var s := Print(v) + tail;
    WordReads(tail);
    if v.Int? {
      NumberReads(v.n, tail);
      assert s == [s[0]] + s[1..];
      LeadReads(s[0], s[1..]);
    } else if v.Str? {
      QuotedReads(v.s, tail);
      assert s == ['"'] + (Quoted(v.s) + tail);
      LeadReads('"', Quoted(v.s) + tail);
    }
  }

  lemma ArrayReads(v: Json, tail: string)
    requires FloatFree(v) && v.Arr?
    requires ReadItems(PrintItems(v, 0) + tail, true) == Some(Read(v.items[0..], tail))
    ensures ReadValue(Print(v) + tail) == Some(Read(v, tail))
  {
    hide FloatFree, PrintItems, ReadItems, ReadValue;
    assert Print(v) + tail == ['['] + (PrintItems(v, 0) + tail) && v.items[0..] == v.items;
    LeadReads('[', PrintItems(v, 0) + tail);
  }

  lemma ObjectReads(v: Json, keys: seq<string>, tail: string)
    requires FloatFree(v) && v.Obj? && keys == SortedKeys(v.members.Keys)
    requires ReadMembers(PrintMembers(v, keys, 0) + tail, true) == Some(Read(Chosen(v.members, keys[0..]), tail))
    ensures ReadValue(Print(v) + tail) == Some(Read(v, tail))
  {
    hide FloatFree, PrintMembers, ReadMembers, ReadValue, Sorted;
    AllMembers(v.members, keys);
    assert Print(v) + tail == ['{'] + (PrintMembers(v, keys, 0) + tail);
    LeadReads('{', PrintMembers(v, keys, 0) + tail);
  }

  /** The reader returns the value whose canonical text it is given, and stops behind it. */
  lemma {:induction false} ValueReads(v: Json, tail: string)
    requires FloatFree(v) && Stops(tail)
    ensures ReadValue(Print(v) + tail) == Some(Read(v, tail))
    decreases v, 1
  {
    hide Print, FloatFree, PrintItems, PrintMembers, Stops, ReadItems, ReadMembers, ReadValue;
    if v.Arr? {
      ItemsRead(v, 0, tail);
      ArrayReads(v, tail);
    } else if v.Obj? {
      MembersRead(v, SortedKeys(v.members.Keys), 0, tail);
      ObjectReads(v, SortedKeys(v.members.Keys), tail);
    } else {
      ScalarReads(v, tail);
    }
  }

  lemma {:induction false} ItemsRead(v: Json, i: nat, tail: string)
    requires FloatFree(v) && v.Arr? && i <= |v.items|
    ensures ReadItems(PrintItems(v, i) + tail, i == 0) == Some(Read(v.items[i..], tail))
    decreases v, 0, |v.items| - i
  {
    hide Print, FloatFree, ReadValue;
    var s := PrintItems(v, i) + tail;
    if i == |v.items| {
      assert s[0] == ']' && s[1..] == tail;
    } else {
      FreeItem(v, i);
      var item, rest := v.items[i], PrintItems(v, i + 1) + tail;
      PrintLead(item);
      Regroup(Comma(i), Print(item), PrintItems(v, i + 1), tail);
      var text := Print(item) + rest;
      assert s == Comma(i) + text && text[0] == Print(item)[0];
      assert i > 0 ==> s[0] == ',' && s[1..] == text;
      assert i == 0 ==> s == text;
      ItemsStop(v, i + 1, tail);
      ValueReads(item, rest);
      hide PrintItems;
      ItemsRead(v, i + 1, tail);
      assert v.items[i..] == [item] + v.items[i + 1..];
    }
  }

  lemma ItemsStop(v: Json, i: nat, tail: string)
    requires FloatFree(v) && v.Arr? && 0 < i <= |v.items|
    ensures Stops(PrintItems(v, i) + tail)
  {
    hide Print;
    assert (PrintItems(v, i) + tail)[0] == PrintItems(v, i)[0];
  }

  lemma MembersStop(v: Json, keys: seq<string>, i: nat, tail: string)
    requires FloatFree(v) && v.Obj? && 0 < i <= |keys| && forall k :: k in keys ==> k in v.members
    ensures Stops(PrintMembers(v, keys, i) + tail)
  {
    hide Print;
    assert (PrintMembers(v, keys, i) + tail)[0] == PrintMembers(v, keys, i)[0];
  }

  ghost function Chosen(members: map<string, Json>, keys: seq<string>): map<string, Json>
    requires forall k :: k in keys ==> k in members
  {
    map k | k in keys :: members[k]
  }

  lemma AllMembers(members: map<string, Json>, keys: seq<string>)
    requires forall k :: k in keys <==> k in members
    ensures keys[0..] == keys && Chosen(members, keys[0..]) == members
  {
    assert keys[0..] == keys;
  }

  lemma {:induction false} MembersRead(v: Json, keys: seq<string>, i: nat, tail: string)
    requires FloatFree(v) && v.Obj? && i <= |keys| && Sorted(keys) && forall k :: k in keys ==> k in v.members
    ensures ReadMembers(PrintMembers(v, keys, i) + tail, i == 0) == Some(Read(Chosen(v.members, keys[i..]), tail))
    decreases v, 0, |keys| - i
  {
    hide Print, FloatFree, ReadValue, ReadChars, Quoted, Sorted, Stops;
    var s := PrintMembers(v, keys, i) + tail;
    if i == |keys| {
      assert s[0] == '}' && s[1..] == tail;
      assert Chosen(v.members, keys[i..]) == map[];
    } else {
      FreeMember(v, keys[i]);
      var item, rest := v.members[keys[i]], PrintMembers(v, keys, i + 1) + tail;
      var named := [':'] + (Print(item) + rest);
      MemberText(v, keys, i, tail);
      QuotedReads(keys[i], named);
      assert named[1..] == Print(item) + rest;
      MembersStop(v, keys, i + 1, tail);
      ValueReads(item, rest);
      hide PrintMembers;
      MembersRead(v, keys, i + 1, tail);
      ChosenNext(v.members, keys, i);
    }
  }

  /** The text of the next member, behind its comma. */
  lemma MemberText(v: Json, keys: seq<string>, i: nat, tail: string)
    requires FloatFree(v) && v.Obj? && i < |keys| && forall k :: k in keys ==> k in v.members
    ensures FloatFree(v.members[keys[i]])
    ensures var s := PrintMembers(v, keys, i) + tail;
            var t := if i == 0 then s else s[1..];
            && s != "" && s[0] != '}' && (i > 0 ==> s[0] == ',') && t != "" && t[0] == '"'
            && t[1..] == Quoted(keys[i]) + ([':'] + (Print(v.members[keys[i]]) + (PrintMembers(v, keys, i + 1) + tail)))
  {
    FreeMember(v, keys[i]);
    hide Print, Quoted, FloatFree;
    var others, value := PrintMembers(v, keys, i + 1), Print(v.members[keys[i]]);
    var s := PrintMembers(v, keys, i) + tail;
    var text := Quoted(keys[i]) + ([':'] + (value + (others + tail)));
    assert PrintMembers(v, keys, i) == Comma(i) + (['"'] + Quoted(keys[i])) + [':'] + value + others;
    RegroupMember(Comma(i), ['"'], Quoted(keys[i]), [':'], value, others, tail);
    assert s == Comma(i) + ['"'] + text;
  }

  lemma ChosenNext(members: map<string, Json>, keys: seq<string>, i: nat)
    requires i < |keys| && Sorted(keys) && forall k :: k in keys ==> k in members
    ensures map[keys[i] := members[keys[i]]] + Chosen(members, keys[i + 1..]) == Chosen(members, keys[i..])
  {
    assert keys[i..] == [keys[i]] + keys[i + 1..];
    if keys[i] in keys[i + 1..] {
      var j :| i < j < |keys| && keys[j] == keys[i];
      LessTotal(keys[i], keys[i]);
    }
  }

  lemma Regroup(p: string, q: string, r: string, a: string)
    ensures (p + q + r) + a == p + (q + (r + a))
  {
  }

  lemma RegroupMember(p: string, o: string, q: string, c: string, r: string, t: string, a: string)
    ensures (p + (o + q) + c + r + t) + a == (p + o) + (q + (c + (r + (t + a))))
  {
    Regroup(p + (o + q) + c, r, t, a);
    Regroup(p + (o + q), c, "", r + (t + a));
    assert c + "" == c && "" + (r + (t + a)) == r + (t + a);
    assert p + (o + q) == (p + o) + q;
    assert ((p + o) + q) + (c + (r + (t + a))) == (p + o) + (q + (c + (r + (t + a))));
  }

  lemma NoItems(v: Json)
    requires FloatFree(v) && v.Arr?
    ensures PrintItems(v, |v.items|) == [']']
  {
  }

  lemma FreeItem(v: Json, i: nat)
    requires FloatFree(v) && v.Arr? && i < |v.items|
    ensures FloatFree(v.items[i])
  {
  }

  lemma FreeMember(v: Json, k: string)
    requires FloatFree(v) && v.Obj? && k in v.members
    ensures FloatFree(v.members[k])
  {
  }

  /** Unique readability: a canonical text, with anything that can follow it behind, comes
      from one value only. */
  lemma Reads(v: Json, w: Json, a: string, b: string)
    requires FloatFree(v) && FloatFree(w) && Stops(a) && Stops(b) && Print(v) + a == Print(w) + b
    ensures v == w && a == b
  {
    hide Print, ReadValue;
    ValueReads(v, a);
    ValueReads(w, b);
  }

  /** Canonical text is injective. */
  lemma PrintInjective(v: Json, w: Json)
    requires FloatFree(v) && FloatFree(w) && Print(v) == Print(w)
    ensures v == w
  {
    hide Print;
    Reads(v, w, "", "");
  }

  // -------------------------------------------------------------------- the writer

  datatype Error = FloatForbidden

  /** Append the canonical text of a value, or fail on a floating-point number. */
  method WriteCanonicalJson(value: Json, output: string) returns (r: Result<string, Error>)
    ensures r == if FloatFree(value) then Ok(output + Print(value)) else Err(FloatForbidden)
    decreases value, 1
  {
    match value
    case Null => r := Ok(output + "null");
    case Bool(b) => r := Ok(output + if b then "true" else "false");
    case Int(n) => r := Ok(output + PrintInt(n));
    case Float => r := Err(FloatForbidden);
    case Str(s) => r := Ok(output + PrintString(s));
    case Arr(_) => r := WriteArray(value, output);
    case Obj(_) => r := WriteObject(value, output);
  }

  lemma ArrayStart(value: Json, output: string)
    requires value.Arr?
    ensures FloatFree(value) <==> forall i :: 0 <= i < |value.items| ==> FloatFree(value.items[i])
    ensures FloatFree(value) ==> (output + ['[']) + PrintItems(value, 0) == output + Print(value)
  {
    if FloatFree(value) {
      hide PrintItems;
      assert (output + ['[']) + PrintItems(value, 0) == output + (['['] + PrintItems(value, 0));
    }
  }

  lemma ItemStep(value: Json, i: nat, out: string)
    requires FloatFree(value) && value.Arr? && i < |value.items|
    ensures FloatFree(value.items[i])
    ensures out + PrintItems(value, i) == ((out + Comma(i)) + Print(value.items[i])) + PrintItems(value, i + 1)
  {
    FreeItem(value, i);
    Regroup2(out, Comma(i), Print(value.items[i]), PrintItems(value, i + 1));
  }

  lemma Regroup2(o: string, p: string, q: string, t: string)
    ensures o + (p + q + t) == ((o + p) + q) + t
  {
  }

  method WriteArray(value: Json, output: string) returns (r: Result<string, Error>)
    requires value.Arr?
    ensures r == if FloatFree(value) then Ok(output + Print(value)) else Err(FloatForbidden)
    decreases value, 0
  {
    hide Print, PrintItems, FloatFree;
    var out := output + ['['];
    ArrayStart(value, output);
    for index := 0 to |value.items|
      invariant forall j :: 0 <= j < index ==> FloatFree(value.items[j])
      invariant FloatFree(value) ==> out + PrintItems(value, index) == output + Print(value)
    {
      if FloatFree(value) {
        ItemStep(value, index, out);
      }
      if index == 0 {
        assert out + Comma(index) == out;
      } else {
        out := out + [','];
      }
      var item := WriteCanonicalJson(value.items[index], out);
      if item.Err? {
        return Err(FloatForbidden);
      }
      out := item.value;
    }
    NoItems(value);
    r := Ok(out + [']']);
  }

  lemma ObjectFree(value: Json, keys: seq<string>)
    requires value.Obj? && forall k :: k in keys <==> k in value.members
    ensures FloatFree(value) <==> forall i :: 0 <= i < |keys| ==> FloatFree(value.members[keys[i]])
  {
    if FloatFree(value) {
      assert forall i :: 0 <= i < |keys| ==> keys[i] in keys;
    } else {
      var k :| k in value.members && !FloatFree(value.members[k]);
      assert k in keys;
    }
  }

  lemma ObjectStart(value: Json, keys: seq<string>, output: string)
    requires value.Obj? && keys == SortedKeys(value.members.Keys)
    ensures FloatFree(value) <==> forall i :: 0 <= i < |keys| ==> FloatFree(value.members[keys[i]])
    ensures FloatFree(value) ==> (output + ['{']) + PrintMembers(value, keys, 0) == output + Print(value)
  {
    hide Sorted, PrintMembers, FloatFree;
    ObjectFree(value, keys);
    if FloatFree(value) {
      assert (output + ['{']) + PrintMembers(value, keys, 0) == output + (['{'] + PrintMembers(value, keys, 0));
    }
  }

  lemma MemberStep(value: Json, keys: seq<string>, i: nat, out: string)
    requires FloatFree(value) && value.Obj? && i < |keys| && forall k :: k in keys ==> k in value.members
    ensures FloatFree(value.members[keys[i]])
    ensures out + PrintMembers(value, keys, i)
            == ((((out + Comma(i)) + PrintString(keys[i])) + [':']) + Print(value.members[keys[i]]))
              + PrintMembers(value, keys, i + 1)
  {
    FreeMember(value, keys[i]);
    hide Print, PrintString, FloatFree;
    var p, v, t := Comma(i) + PrintString(keys[i]) + [':'], Print(value.members[keys[i]]),
        PrintMembers(value, keys, i + 1);
    assert PrintMembers(value, keys, i) == p + v + t;
    Regroup2(out, p, v, t);
    Regroup2(out, Comma(i), PrintString(keys[i]), [':']);
  }

  lemma NoMembers(value: Json, keys: seq<string>)
    requires FloatFree(value) && value.Obj? && forall k :: k in keys ==> k in value.members
    ensures PrintMembers(value, keys, |keys|) == ['}']
  {
  }

  method WriteObject(value: Json, output: string) returns (r: Result<string, Error>)
    requires value.Obj?
    ensures r == if FloatFree(value) then Ok(output + Print(value)) else Err(FloatForbidden)
    decreases value, 0
  {
    hide Print, PrintMembers, FloatFree, PrintString, SortedKeys, Sorted;
    var out := output + ['{'];
    var keys := CollectSorted(value.members.Keys);
    ObjectStart(value, keys, output);
    for index := 0 to |keys|
      invariant forall j :: 0 <= j < index ==> FloatFree(value.members[keys[j]])
      invariant FloatFree(value) ==> out + PrintMembers(value, keys, index) == output + Print(value)
    {
      if FloatFree(value) {
        MemberStep(value, keys, index, out);
      }
      if index == 0 {
        assert out + Comma(index) == out;
      } else {
        out := out + [','];
      }
      out := out + PrintString(keys[index]);
      out := out + [':'];
      assert keys[index] in keys;
      var item := WriteCanonicalJson(value.members[keys[index]], out);
      if item.Err? {
        return Err(FloatForbidden);
      }
      out := item.value;
    }
    NoMembers(value, keys);
    r := Ok(out + ['}']);
  }

  // ---------------------------------------------------------------------- identity

  /** The text that a manifest's identity is the hash of: everything but the id field. */
  ghost function Preimage(fields: map<string, Json>, id: string): Result<string, Error> {
    if FloatFree(Obj(fields - {id})) then Ok(Print(Obj(fields - {id}))) else Err(FloatForbidden)
  }

  /** Two manifests share a preimage exactly when they agree on every field but the id. */
  lemma PreimageIdentifies(m: map<string, Json>, n: map<string, Json>, id: string)
    requires Preimage(m, id).Ok? && Preimage(n, id).Ok?
    ensures Preimage(m, id) == Preimage(n, id) <==> m - {id} == n - {id}
  {
    if Preimage(m, id) == Preimage(n, id) {
      PrintInjective(Obj(m - {id}), Obj(n - {id}));
    }
  }

  method CanonicalJsonWithoutField(fields: map<string, Json>, id: string) returns (r: Result<string, Error>)
    ensures r == Preimage(fields, id)
  {
    r := WriteCanonicalJson(Obj(fields - {id}), "");
    if r.Ok? {
      assert "" + Print(Obj(fields - {id})) == Print(Obj(fields - {id}));
    }
  }

  /** A manifest that carries the hash of its own content. */
  class Manifest {
    const id: string
    const hash: string -> Digest
    var fields: map<string, Json>

    constructor (id: string, hash: string -> Digest, fields: map<string, Json>)
      ensures this.id == id && this.hash == hash && this.fields == fields
    {
      this.id, this.hash, this.fields := id, hash, fields;
    }

    /** The stored id is the hash of the rest. */
    ghost predicate IdMatches()
      reads this
    {
      var preimage := Preimage(fields, id);
      preimage.Ok? && id in fields && fields[id] == Str(hash(preimage.value))
    }

    /** Store the content hash. Sealing again changes nothing. */
    method Seal() returns (error: Option<Error>)
      modifies `fields
      ensures error.None? <==> Preimage(old(fields), id).Ok?
      ensures error.None? ==> IdMatches() && fields - {id} == old(fields) - {id}
      ensures error.None? ==> FloatFree(Obj(old(fields) - {id}))
                              && fields == old(fields)[id := Str(hash(Print(Obj(old(fields) - {id}))))]
      ensures error.None? && old(IdMatches()) ==> fields == old(fields)
      ensures error.Some? ==> fields == old(fields)
    {
      var preimage := CanonicalJsonWithoutField(fields, id);
      if preimage.Err? {
        return Some(preimage.error);
      }
      fields := fields[id := Str(hash(preimage.value))];
      assert fields - {id} == old(fields) - {id};
      error := None;
    }

    /** Check that the id is a digest, recompute the identity and compare. The check of the
        form rejects no matching id. */
    method CheckId() returns (ok: bool)
      ensures ok == IdMatches()
      ensures ok <==> FloatFree(Obj(fields - {id})) && id in fields &&
                      fields[id] == Str(hash(Print(Obj(fields - {id}))))
    {
      if id !in fields || !fields[id].Str? {
        return false;
      }
      var stored := fields[id].s;
      if IsDigest(stored) {
        DigestIsNoPlaceholder(stored);
      }
      if IsPlaceholder(stored) || !IsDigest(stored) {
        return false;
      }
      var preimage := CanonicalJsonWithoutField(fields, id);
      ok := preimage.Ok? && stored == hash(preimage.value);
    }
  }
}
