/** JSON values and a reader of their notation, without insignificant white space (RFC 8259,
    sections 3 to 7). */
module JsonNotation {
  import opened Wrappers
  import opened Text
  import opened Numerals

  /** A JSON value; an object is an unordered map from names to values. */
  datatype Json =
    | Null
    | Bool(b: bool)
    | Int(n: int)
    | Float
    | Str(s: string)
    | Arr(items: seq<Json>)
    | Obj(members: map<string, Json>)

  /** What was read, and what follows it. */
  datatype Read<T> = Read(value: T, rest: string)

  /** Section 3: a value is told by its first character. */
  function ReadValue(s: string): (r: Option<Read<Json>>)
    ensures r.Some? ==> |r.value.rest| < |s|
    decreases |s|, 1
  {
    if s == "" then None
    else if "null" <= s then Some(Read(Null, s[4..]))
    else if "true" <= s then Some(Read(Bool(true), s[4..]))
    else if "false" <= s then Some(Read(Bool(false), s[5..]))
    else if s[0] == '"' then
      var chars := ReadChars(s[1..]);
      if chars.None? then None else Some(Read(Str(chars.value.value), chars.value.rest))
    else if s[0] == '[' then
      var items := ReadItems(s[1..], true);
      if items.None? then None else Some(Read(Arr(items.value.value), items.value.rest))
    else if s[0] == '{' then
      var members := ReadMembers(s[1..], true);
      if members.None? then None else Some(Read(Obj(members.value.value), members.value.rest))
    else ReadNumber(s)
  }

  function DigitRun(s: string): (n: nat)
    ensures n <= |s| && (n < |s| ==> !IsDigit(s[n])) && forall i :: 0 <= i < n ==> IsDigit(s[i])
  {
    if s != "" && IsDigit(s[0]) then 1 + DigitRun(s[1..]) else 0
  }

  /** Section 6: an optional minus and digits without a leading zero. */
  function ReadNumber(s: string): (r: Option<Read<Json>>)
    requires s != ""
    ensures r.Some? ==> |r.value.rest| < |s| && r.value.value.Int?
  {
    var digits := if s[0] == '-' then s[1..] else s;
    var n := DigitRun(digits);
    if n == 0 || (n > 1 && digits[0] == '0') then None
    else
      var value: int := Value(digits[..n], 10);
      Some(Read(Int(if s[0] == '-' then -value else value), digits[n..]))
  }

  /** Section 7: what a backslash and one character stand for. */
  function Unescaped(c: char): Option<char> {
    match c
    case '"' => Some('"')
    case '\\' => Some('\\')
    case '/' => Some('/')
    case 'b' => Some('\U{8}')
    case 'f' => Some('\U{c}')
    case 'n' => Some('\n')
    case 'r' => Some('\r')
    case 't' => Some('\t')
    case _ => None
  }

  predicate IsHex(c: char) { DigitValue(c) < 16 }

  function Cons(c: char, r: Option<Read<string>>): Option<Read<string>> {
    if r.None? then None else Some(Read([c] + r.value.value, r.value.rest))
  }

  /** Section 7: the characters of a string behind its opening quote. */
  function ReadChars(s: string): (r: Option<Read<string>>)
    ensures r.Some? ==> |r.value.rest| < |s|
    decreases |s|
  {
    if s == "" || s[0] < ' ' then None
    else if s[0] == '"' then Some(Read("", s[1..]))
    else if s[0] != '\\' then Cons(s[0], ReadChars(s[1..]))
    else if |s| < 2 then None
    else if s[1] != 'u' then
      if Unescaped(s[1]).None? then None else Cons(Unescaped(s[1]).value, ReadChars(s[2..]))
    else if |s| < 6 || exists i :: 2 <= i < 6 && !IsHex(s[i]) then None
    else
      var code := CodeUnit(s[2], s[3], s[4], s[5]);
      if 0xD800 <= code < 0xE000 then None else Cons(code as char, ReadChars(s[6..]))
  }

  /** Four hexadecimal digits. */
  function CodeUnit(a: char, b: char, c: char, d: char): (n: nat)
    requires IsHex(a) && IsHex(b) && IsHex(c) && IsHex(d)
    ensures n < 0x1_0000
  {
    0x1000 * DigitValue(a) + 0x100 * DigitValue(b) + 0x10 * DigitValue(c) + DigitValue(d)
  }

  /** Section 5: values with commas between them, up to the closing bracket. */
  function ReadItems(s: string, first: bool): (r: Option<Read<seq<Json>>>)
    ensures r.Some? ==> |r.value.rest| < |s|
    decreases |s|, 2
  {
    if s == "" then None
    else if s[0] == ']' then Some(Read([], s[1..]))
    else if !first && s[0] != ',' then None
    else
      var item := ReadValue(if first then s else s[1..]);
      if item.None? then None
      else
        var others := ReadItems(item.value.rest, false);
        if others.None? then None else Some(Read([item.value.value] + others.value.value, others.value.rest))
  }

  /** Section 4: named values with commas between them, up to the closing brace. Of values with
      one name the last counts. */
  function ReadMembers(s: string, first: bool): (r: Option<Read<map<string, Json>>>)
    ensures r.Some? ==> |r.value.rest| < |s|
    decreases |s|, 2
  {
    if s == "" then None
    else if s[0] == '}' then Some(Read(map[], s[1..]))
    else if !first && s[0] != ',' then None
    else
      var t := if first then s else s[1..];
      if t == "" || t[0] != '"' then None
      else
        var name := ReadChars(t[1..]);
        if name.None? || name.value.rest == "" || name.value.rest[0] != ':' then None
        else
          var item := ReadValue(name.value.rest[1..]);
          if item.None? then None
          else
            var others := ReadMembers(item.value.rest, false);
            if others.None? then None
            else Some(Read(map[name.value.value := item.value.value] + others.value.value, others.value.rest))
  }
}
