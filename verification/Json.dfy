/** The value parser and printer of framework/cJSON.c. */
module Json {
  import opened Wrappers
  import opened Bytes
  import opened JsonText

  /** Numbers are whatever sprintf and strtod exchange: show is the text of a number, scan reads
      a number from the front of a run of number characters and says how many it used. */
  datatype Codec<!N> = Codec(show: N -> seq<byte>, scan: seq<byte> -> Option<Scanned<N>>)

  datatype Scanned<+N> = Scanned(value: N, used: nat)

  datatype Value<N> =
    | Null
    | Bool(b: bool)
    | Number(n: N)
    | Str(s: seq<byte>)
    | Arr(items: seq<Value<N>>)
    | Obj(members: seq<Member<N>>)

  datatype Member<N> = Member(key: seq<byte>, value: Value<N>)

  const NESTING_LIMIT := 1000

  const NULL: seq<byte> := [110, 117, 108, 108]
  const FALSE: seq<byte> := [102, 97, 108, 115, 101]
  const TRUE: seq<byte> := [116, 114, 117, 101]
  const COMMA: byte := 44
  const COLON: byte := 58
  const OPEN_ARRAY: byte := 91
  const CLOSE_ARRAY: byte := 93
  const OPEN_OBJECT: byte := 123
  const CLOSE_OBJECT: byte := 125
  const TAB: byte := 9
  const NEWLINE: byte := 10
  const SPACE: byte := 32

  // ---------- printing ----------

  function Tabs(n: nat): seq<byte> {
    seq(n, i => TAB)
  }

  /** print_value; depth counts the enclosing containers and only indents formatted output. */
  function Print<N>(k: Codec<N>, v: Value<N>, format: bool, depth: nat): seq<byte>
    decreases v, 1
  {
    match v
    case Null => NULL
    case Bool(b) => if b then TRUE else FALSE
    case Number(n) => k.show(n)
    case Str(s) => Quoted(s)
    case Arr(items) => [OPEN_ARRAY] + (PrintItems(k, items, format, depth + 1) + [CLOSE_ARRAY])
    case Obj(members) =>
      [OPEN_OBJECT] + (If(format, [NEWLINE])
        + (PrintMembers(k, members, format, depth + 1) + (If(format, Tabs(depth)) + [CLOSE_OBJECT])))
  }

  function If(on: bool, s: seq<byte>): seq<byte> {
    if on then s else []
  }

  function PrintItems<N>(k: Codec<N>, items: seq<Value<N>>, format: bool, depth: nat): seq<byte>
    decreases items, 0
  {
    if items == [] then []
    else if |items| == 1 then Print(k, items[0], format, depth)
    else
      Print(k, items[0], format, depth)
      + ([COMMA] + (If(format, [SPACE]) + PrintItems(k, items[1..], format, depth)))
  }

  function PrintMembers<N>(k: Codec<N>, members: seq<Member<N>>, format: bool, depth: nat): seq<byte>
    decreases members, 0
  {
    if members == [] then []
    else
      If(format, Tabs(depth))
      + (Quoted(members[0].key)
      + ([COLON] + (If(format, [TAB])
      + (Print(k, members[0].value, format, depth)
      + AfterMember(k, members, format, depth)))))
  }

  /** What follows the value of the first member. */
  function AfterMember<N>(k: Codec<N>, members: seq<Member<N>>, format: bool, depth: nat): seq<byte>
    requires members != []
    decreases members[1..], 1
  {
    If(|members| > 1, [COMMA]) + (If(format, [NEWLINE]) + PrintMembers(k, members[1..], format, depth))
  }

  // ---------- parsing ----------

  // The cursor is what is left of the text. The text ends with a NUL, as the string handed to
  // cJSON_Parse does, and no step moves past that NUL.

  datatype Read<+T> = Read(value: T, rest: seq<byte>)

  /** buffer_skip_whitespace: everything up to 32 counts as blank, the NUL at the end included,
      but the cursor stays on the last byte. */
  function Skip(s: seq<byte>): (r: seq<byte>)
    ensures |r| <= |s|
  {
    if |s| > 1 && s[0] <= 32 then Skip(s[1..]) else s
  }

  predicate At(s: seq<byte>, b: byte) {
    s != [] && s[0] == b
  }

  predicate NumberChar(b: byte) {
    48 <= b <= 57 || b in {43, 45, 101, 69, 46}
  }

  /** How many of the next bytes parse_number copies: at most limit number characters. */
  function Run(s: seq<byte>, limit: nat): (n: nat)
    ensures n <= limit && n <= |s|
  {
    if limit == 0 || s == [] || !NumberChar(s[0]) then 0 else 1 + Run(s[1..], limit - 1)
  }

  function ParseNumber<N>(k: Codec<N>, s: seq<byte>): (r: Option<Read<Value<N>>>)
    ensures r.Some? ==> |r.value.rest| < |s|
  {
    match k.scan(s[..Run(s, 63)])
    case None => None
    case Some(Scanned(n, used)) => if 0 < used <= Run(s, 63) then Some(Read(Number(n), s[used..])) else None
  }

  function ParseText(s: seq<byte>): (r: Option<Read<seq<byte>>>)
    ensures r.Some? ==> |r.value.rest| < |s|
  {
    if s == [] then None
    else
      var r := ParseString(s, 0);
      if r.None? then None else Some(Read(r.value.value, s[r.value.offset..]))
  }

  /** parse_value with depth containers open. */
  function Parse<N>(k: Codec<N>, s: seq<byte>, depth: nat): (r: Option<Read<Value<N>>>)
    ensures r.Some? ==> |r.value.rest| < |s|
    decreases |s|, 1
  {
    if NULL <= s then Some(Read(Null, s[4..]))
    else if FALSE <= s then Some(Read(Bool(false), s[5..]))
    else if TRUE <= s then Some(Read(Bool(true), s[4..]))
    else if At(s, QUOTE) then Wrap(ParseText(s), t => Str(t))
    else if s != [] && (s[0] == 45 || 48 <= s[0] <= 57) then ParseNumber(k, s)
    else if At(s, OPEN_ARRAY) then
      if depth >= NESTING_LIMIT then None
      else if At(Skip(s[1..]), CLOSE_ARRAY) then Some(Read(Arr([]), Skip(s[1..])[1..]))
      else Wrap(ParseItems(k, s[1..], depth + 1), items => Arr(items))
    else if At(s, OPEN_OBJECT) then
      if depth >= NESTING_LIMIT then None
      else if At(Skip(s[1..]), CLOSE_OBJECT) then Some(Read(Obj([]), Skip(s[1..])[1..]))
      else Wrap(ParseMembers(k, s[1..], depth + 1), members => Obj(members))
    else None
  }

  function Wrap<T, U>(r: Option<Read<T>>, f: T -> U): Option<Read<U>> {
    if r.None? then None else Some(Read(f(r.value.value), r.value.rest))
  }

  function Prepend<T>(v: T, rest: Option<Read<seq<T>>>): Option<Read<seq<T>>> {
    if rest.None? then None else Some(Read([v] + rest.value.value, rest.value.rest))
  }

  /** The loop of parse_array, from behind the bracket or the comma on. */
  function ParseItems<N>(k: Codec<N>, s: seq<byte>, depth: nat): (r: Option<Read<seq<Value<N>>>>)
    ensures r.Some? ==> |r.value.rest| < |s|
    decreases |s|, 2
  {
    var v := Parse(k, Skip(s), depth);
    if v.None? then None
    else
      var t := Skip(v.value.rest);
      if At(t, COMMA) then Prepend(v.value.value, ParseItems(k, t[1..], depth))
      else if At(t, CLOSE_ARRAY) then Some(Read([v.value.value], t[1..]))
      else None
  }

  /** A member's name and the colon behind it. */
  function ParseName(s: seq<byte>): (r: Option<Read<seq<byte>>>)
    ensures r.Some? ==> |r.value.rest| < |s|
  {
    var name := ParseText(Skip(s));
    if name.None? || !At(Skip(name.value.rest), COLON) then None
    else Some(Read(name.value.value, Skip(name.value.rest)[1..]))
  }

  /** The loop of parse_object, from behind the brace or the comma on. */
  function ParseMembers<N>(k: Codec<N>, s: seq<byte>, depth: nat): (r: Option<Read<seq<Member<N>>>>)
    ensures r.Some? ==> |r.value.rest| < |s|
    decreases |s|, 2
  {
    var name := ParseName(s);
    if name.None? then None
    else
      var v := Parse(k, Skip(name.value.rest), depth);
      if v.None? then None
      else
        var t, m := Skip(v.value.rest), Member(name.value.value, v.value.value);
        if At(t, COMMA) then Prepend(m, ParseMembers(k, t[1..], depth))
        else if At(t, CLOSE_OBJECT) then Some(Read([m], t[1..]))
        else None
  }

  // ---------- what the proofs about texts need ----------

  ghost predicate NumberText(t: seq<byte>) {
    0 < |t| <= 63 && (t[0] == 45 || 48 <= t[0] <= 57) && forall i :: 0 <= i < |t| ==> NumberChar(t[i])
  }

  /** The number texts are read back by the number scanner. */
  ghost predicate Inverts<N(!new)>(k: Codec<N>) {
    forall n: N :: NumberText(k.show(n)) && k.scan(k.show(n)) == Some(Scanned(n, |k.show(n)|))
  }

  function Max(a: nat, b: nat): nat { if a > b then a else b }

  /** How many containers are nested in a value. */
  function Depth<N>(v: Value<N>): nat
    decreases v, 1
  {
    match v
    case Arr(items) => 1 + ItemsDepth(items)
    case Obj(members) => 1 + MembersDepth(members)
    case _ => 0
  }

  function ItemsDepth<N>(items: seq<Value<N>>): nat
    decreases items, 0
  {
    if items == [] then 0 else Max(Depth(items[0]), ItemsDepth(items[1..]))
  }

  function MembersDepth<N>(members: seq<Member<N>>): nat
    decreases members, 0
  {
    if members == [] then 0 else Max(Depth(members[0].value), MembersDepth(members[1..]))
  }

  /** C strings hold no NUL. */
  predicate NulFree<N>(v: Value<N>)
    decreases v, 1
  {
    match v
    case Str(s) => 0 !in s
    case Arr(items) => ItemsNulFree(items)
    case Obj(members) => MembersNulFree(members)
    case _ => true
  }

  predicate ItemsNulFree<N>(items: seq<Value<N>>)
    decreases items, 0
  {
    items == [] || (NulFree(items[0]) && ItemsNulFree(items[1..]))
  }

  predicate MembersNulFree<N>(members: seq<Member<N>>)
    decreases members, 0
  {
    members == [] || (0 !in members[0].key && NulFree(members[0].value) && MembersNulFree(members[1..]))
  }

  ghost predicate AllBlank(b: seq<byte>) {
    forall i :: 0 <= i < |b| ==> b[i] <= 32
  }

  lemma {:induction false} SkipsBlanks(b: seq<byte>, s: seq<byte>)
    requires AllBlank(b) && s != []
    ensures Skip(b + s) == Skip(s)
  {
    if b == [] {
      assert b + s == s;
    } else {
      assert (b + s)[1..] == b[1..] + s;
      SkipsBlanks(b[1..], s);
    }
  }

  lemma SkipsTo(b: seq<byte>, s: seq<byte>)
    requires AllBlank(b) && s != [] && s[0] > 32
    ensures Skip(b + s) == s && Skip(s) == s
  {
    SkipsBlanks(b, s);
  }

  /** What follows a value in printed text: the byte cannot be part of a number. */
  ghost predicate Ends(rest: seq<byte>) {
    rest != [] && !NumberChar(rest[0])
  }

  /** The value and the rest of the text, exactly when the nesting limit allows. */
  ghost function Expected<T>(v: T, rest: seq<byte>, depth: nat): Option<Read<T>> {
    if depth <= NESTING_LIMIT then Some(Read(v, rest)) else None
  }

  lemma {:induction false} RunIs(t: seq<byte>, rest: seq<byte>, limit: nat)
    requires |t| <= limit && Ends(rest) && forall i :: 0 <= i < |t| ==> NumberChar(t[i])
    ensures Run(t + rest, limit) == |t|
    decreases limit
  {
    if t != [] {
      assert (t + rest)[1..] == t[1..] + rest;
      RunIs(t[1..], rest, limit - 1);
    }
  }

  lemma ItemsSkip<N>(k: Codec<N>, s: seq<byte>, t: seq<byte>, depth: nat)
    requires Skip(s) == Skip(t)
    ensures ParseItems(k, s, depth) == ParseItems(k, t, depth)
  {
    hide Parse;
  }

  lemma MembersSkip<N>(k: Codec<N>, s: seq<byte>, t: seq<byte>, depth: nat)
    requires Skip(s) == Skip(t)
    ensures ParseMembers(k, s, depth) == ParseMembers(k, t, depth)
  {
    hide Parse, ParseText;
  }

  /** The branches of parse_value that start with a bracket or a brace. */
  lemma ContainerCase<N>(k: Codec<N>, s: seq<byte>, depth: nat)
    requires s != []
    ensures s[0] == OPEN_ARRAY ==>
              Parse(k, s, depth) == (if depth >= NESTING_LIMIT then None
                                     else if At(Skip(s[1..]), CLOSE_ARRAY) then Some(Read(Arr([]), Skip(s[1..])[1..]))
                                     else Wrap(ParseItems(k, s[1..], depth + 1), items => Arr(items)))
    ensures s[0] == OPEN_OBJECT ==>
              Parse(k, s, depth) == (if depth >= NESTING_LIMIT then None
                                     else if At(Skip(s[1..]), CLOSE_OBJECT) then Some(Read(Obj([]), Skip(s[1..])[1..]))
                                     else Wrap(ParseMembers(k, s[1..], depth + 1), members => Obj(members)))
  {
    hide ParseItems, ParseMembers, ParseText, ParseNumber, Skip;
  }
}
