/**
  The values of sections 2 to 7 of RFC 8259 with white space between the tokens, what the parser of framework/cJSON.c
  makes of their texts, and where in the grammar the printer's texts are.
 */
module JsonGrammar {
  import opened Wrappers
  import opened Sequences
  import opened Bytes
  import opened JsonText
  import opened Json
  import JsonRfc

  /** How a text is put together. A number or string carries its text and what it denotes; an empty container carries
      the blanks in it. */
  datatype Doc<N> =
    | NullDoc | TrueDoc | FalseDoc
    | NumberDoc(t: seq<byte>, n: N)
    | StringDoc(raw: seq<byte>, s: seq<byte>)
    | ArrayDoc(gap: seq<byte>, items: seq<Item<N>>)
    | ObjectDoc(gap: seq<byte>, pairs: seq<Pair<N>>)

  /** A value between blanks. */
  datatype Item<N> = Item(before: seq<byte>, doc: Doc<N>, after: seq<byte>)

  /** A name between blanks, a colon and a value between blanks. */
  datatype Pair<N> = Pair(before: seq<byte>, raw: seq<byte>, key: seq<byte>, mid: seq<byte>, item: Item<N>)

  function Spell<N>(d: Doc<N>): seq<byte>
    decreases d, 1
  {
    match d
    case NullDoc => [110, 117, 108, 108]
    case TrueDoc => [116, 114, 117, 101]
    case FalseDoc => [102, 97, 108, 115, 101]
    case NumberDoc(t, _) => t
    case StringDoc(raw, _) => raw
    case ArrayDoc(gap, items) => [91] + ((if items == [] then gap else SpellItems(items)) + [93])
    case ObjectDoc(gap, pairs) => [123] + ((if pairs == [] then gap else SpellPairs(pairs)) + [125])
  }

  function SpellItem<N>(i: Item<N>): seq<byte>
    decreases i, 2
  {
    i.before + (Spell(i.doc) + i.after)
  }

  function SpellItems<N>(items: seq<Item<N>>): seq<byte>
    requires items != []
    decreases items, 0
  {
    SpellItem(items[0]) + (if |items| == 1 then [] else [44] + SpellItems(items[1..]))
  }

  function SpellPairs<N>(pairs: seq<Pair<N>>): seq<byte>
    requires pairs != []
    decreases pairs, 0
  {
    SpellPair(pairs[0], if |pairs| == 1 then [] else [44] + SpellPairs(pairs[1..]))
  }

  /** A member and what follows it. */
  function SpellPair<N>(p: Pair<N>, more: seq<byte>): seq<byte>
    decreases p, 2
  {
    p.before + (p.raw + (p.mid + ([58] + (SpellItem(p.item) + more))))
  }

  /** The value that the text denotes. */
  function Denoted<N>(d: Doc<N>): Value<N>
    decreases d, 1
  {
    match d
    case NullDoc => Null
    case TrueDoc => Bool(true)
    case FalseDoc => Bool(false)
    case NumberDoc(_, n) => Number(n)
    case StringDoc(_, s) => Str(s)
    case ArrayDoc(_, items) => Arr(DenotedItems(items))
    case ObjectDoc(_, pairs) => Obj(DenotedPairs(pairs))
  }

  function DenotedItems<N>(items: seq<Item<N>>): (vs: seq<Value<N>>)
    ensures |vs| == |items|
    decreases items, 0
  {
    if items == [] then [] else [Denoted(items[0].doc)] + DenotedItems(items[1..])
  }

  function DenotedPairs<N>(pairs: seq<Pair<N>>): (ms: seq<Member<N>>)
    ensures |ms| == |pairs|
    decreases pairs, 0
  {
    if pairs == [] then [] else [Member(pairs[0].key, Denoted(pairs[0].item.doc))] + DenotedPairs(pairs[1..])
  }

  // ---------- tokens: strictly by the standard, or as the parser takes them ----------

  /** Space, horizontal tab, line feed and carriage return; the parser takes everything up to 32. */
  ghost predicate Blanks(b: seq<byte>, strict: bool) {
    if strict then forall i :: 0 <= i < |b| ==> b[i] in {0x20, 0x09, 0x0A, 0x0D} else AllBlank(b)
  }

  predicate Digits(t: seq<byte>) {
    t != [] && forall i :: 0 <= i < |t| ==> 48 <= t[i] <= 57
  }

  /** The parts of a number, section 6: a minus, digits without a leading zero, a fraction and an exponent. */
  datatype Parts = Parts(minus: bool, whole: seq<byte>, fraction: seq<byte>, mark: seq<byte>, sign: seq<byte>, exponent: seq<byte>)

  predicate GoodParts(p: Parts) {
    && Digits(p.whole) && (p.whole[0] == 48 ==> |p.whole| == 1)
    && (p.fraction != [] ==> Digits(p.fraction))
    && (if p.exponent == [] then p.mark == [] && p.sign == []
        else Digits(p.exponent) && p.mark in {[101], [69]} && p.sign in {[], [43], [45]})
  }

  function SpellParts(p: Parts): seq<byte> {
    (if p.minus then [45] else []) + p.whole + (if p.fraction == [] then [] else [46] + p.fraction) + p.mark + p.sign + p.exponent
  }

  ghost predicate RfcNumber(t: seq<byte>) {
    exists p :: GoodParts(p) && t == SpellParts(p)
  }

  /** A number that the scanner reads as n. The parser copies at most 63 bytes of a number. */
  ghost predicate NumberToken<N>(k: Codec<N>, t: seq<byte>, n: N, strict: bool) {
    (if strict then RfcNumber(t) && |t| <= 63 else NumberText(t)) && k.scan(t) == Some(Scanned(n, |t|))
  }

  ghost predicate StringToken(raw: seq<byte>, s: seq<byte>, strict: bool) {
    if strict then
      exists chars :: JsonRfc.AllGenerated(chars) && raw == [34] + (JsonRfc.Text(chars) + [34]) && s == JsonRfc.Meaning(chars)
    else ParseText(raw) == Some(Read(s, []))
  }

  /** The text is generated by the grammar. */
  ghost predicate Follows<N>(k: Codec<N>, d: Doc<N>, strict: bool)
    decreases d, 1
  {
    match d
    case NumberDoc(t, n) => NumberToken(k, t, n, strict)
    case StringDoc(raw, s) => StringToken(raw, s, strict)
    case ArrayDoc(gap, items) => Blanks(gap, strict) && ItemsFollow(k, items, strict)
    case ObjectDoc(gap, pairs) => Blanks(gap, strict) && PairsFollow(k, pairs, strict)
    case _ => true
  }

  ghost predicate ItemFollows<N>(k: Codec<N>, i: Item<N>, strict: bool)
    decreases i, 2
  {
    Blanks(i.before, strict) && Follows(k, i.doc, strict) && Blanks(i.after, strict)
  }

  ghost predicate ItemsFollow<N>(k: Codec<N>, items: seq<Item<N>>, strict: bool)
    decreases items, 0
  {
    items == [] || (ItemFollows(k, items[0], strict) && ItemsFollow(k, items[1..], strict))
  }

  ghost predicate PairsFollow<N>(k: Codec<N>, pairs: seq<Pair<N>>, strict: bool)
    decreases pairs, 0
  {
    pairs == [] ||
    (var p := pairs[0];
     && Blanks(p.before, strict) && StringToken(p.raw, p.key, strict) && Blanks(p.mid, strict)
     && ItemFollows(k, p.item, strict) && PairsFollow(k, pairs[1..], strict))
  }

  // ---------- the standard's tokens are taken by the parser ----------

  lemma PartsAreNumber(p: Parts)
    requires GoodParts(p) && |SpellParts(p)| <= 63
    ensures NumberText(SpellParts(p))
  {
  }

  lemma NumberIsLax<N>(k: Codec<N>, t: seq<byte>, n: N)
    requires NumberToken(k, t, n, true)
    ensures NumberToken(k, t, n, false)
  {
    var p :| GoodParts(p) && t == SpellParts(p);
    PartsAreNumber(p);
  }

  lemma StringIsLax(raw: seq<byte>, s: seq<byte>)
    requires StringToken(raw, s, true)
    ensures StringToken(raw, s, false)
  {
    var chars :| JsonRfc.AllGenerated(chars) && raw == [34] + (JsonRfc.Text(chars) + [34]) && s == JsonRfc.Meaning(chars);
    JsonRfc.EveryStringIsRead(raw, 0, chars);
  }

  lemma {:induction false} StrictIsLax<N>(k: Codec<N>, d: Doc<N>)
    requires Follows(k, d, true)
    ensures Follows(k, d, false)
    decreases d, 1
  {
    hide NumberToken, StringToken;
    match d
    case NumberDoc(t, n) => NumberIsLax(k, t, n);
    case StringDoc(raw, s) => StringIsLax(raw, s);
    case ArrayDoc(_, items) => ItemsLax(k, items);
    case ObjectDoc(_, pairs) => PairsLax(k, pairs);
    case _ =>
  }

  lemma {:induction false} ItemsLax<N>(k: Codec<N>, items: seq<Item<N>>)
    requires ItemsFollow(k, items, true)
    ensures ItemsFollow(k, items, false)
    decreases items, 0
  {
    if items != [] {
      StrictIsLax(k, items[0].doc);
      ItemsLax(k, items[1..]);
    }
  }

  lemma {:induction false} PairsLax<N>(k: Codec<N>, pairs: seq<Pair<N>>)
    requires PairsFollow(k, pairs, true)
    ensures PairsFollow(k, pairs, false)
    decreases pairs, 0
  {
    hide StringToken;
    if pairs != [] {
      StringIsLax(pairs[0].raw, pairs[0].key);
      StrictIsLax(k, pairs[0].item.doc);
      PairsLax(k, pairs[1..]);
    }
  }

  // ---------- strings do not depend on what follows them ----------

  lemma {:induction false} SameEnd(c: seq<byte>, rest: seq<byte>, p: nat)
    ensures FindEnd(c, p).Some? ==> FindEnd(c + rest, p) == FindEnd(c, p)
    ensures FindEnd(c + rest, p).Some? && FindEnd(c + rest, p).value < |c| ==> FindEnd(c + rest, p) == FindEnd(c, p)
    decreases |c| - p
  {
    if p < |c| && c[p] != QUOTE {
      SameEnd(c, rest, if c[p] != BACKSLASH then p + 1 else p + 2);
    }
  }

  lemma SamePiece(c: seq<byte>, rest: seq<byte>, p: nat, end: nat)
    requires p < end < |c|
    ensures Piece(c + rest, p, end) == Piece(c, p, end)
  {
    hide Utf8, SurrogatePair, HexValue;
  }

  lemma {:induction false} SameBytes(c: seq<byte>, rest: seq<byte>, p: nat, end: nat)
    requires end < |c|
    ensures Unescape(c + rest, p, end) == Unescape(c, p, end)
    decreases |c| - p
  {
    hide Piece;
    if p < end {
      SamePiece(c, rest, p, end);
      if Piece(c, p, end).Some? { SameBytes(c, rest, p + Piece(c, p, end).value.length, end); }
    }
  }

  /** A text is a string by itself exactly if it is the string at the front of a longer text. */
  lemma StringInFront(raw: seq<byte>, s: seq<byte>, rest: seq<byte>)
    ensures ParseText(raw) == Some(Read(s, [])) <==> ParseText(raw + rest) == Some(Read(s, rest))
  {
    hide FindEnd, Unescape;
    SameEnd(raw, rest, 1);
    if raw != [] && FindEnd(raw + rest, 1).Some? && FindEnd(raw + rest, 1).value < |raw| {
      SameBytes(raw, rest, 1, FindEnd(raw, 1).value);
    }
  }

  // ---------- every text is read ----------

  /** A text starts with a byte that is neither blank nor closes a container. */
  lemma SpellStarts<N>(k: Codec<N>, d: Doc<N>)
    requires Follows(k, d, false)
    ensures var t := Spell(d); t != [] && t[0] > 32 && t[0] != 93 && t[0] != 125
  {
    hide SpellItems, SpellPairs, ItemsFollow, PairsFollow;
  }

  lemma NumberRead<N>(k: Codec<N>, t: seq<byte>, n: N, rest: seq<byte>, depth: nat)
    requires NumberToken(k, t, n, false) && Ends(rest)
    ensures Parse(k, t + rest, depth) == Some(Read(Number(n), rest))
  {
    hide ParseText, ParseItems, ParseMembers;
    RunIs(t, rest, 63);
    assert (t + rest)[..|t|] == t && (t + rest)[|t|..] == rest;
  }

  /** The parser never takes more than 63 bytes of a number, so that a longer one is not read as a whole. */
  lemma LongNumber<N>(k: Codec<N>, t: seq<byte>, rest: seq<byte>, depth: nat)
    requires |t| > 63 && (t[0] == 45 || 48 <= t[0] <= 57)
    ensures var r := Parse(k, t + rest, depth); r.Some? ==> |r.value.rest| > |rest|
  {
    hide ParseItems, ParseMembers, ParseText;
    assert (t + rest)[0] == t[0];
  }

  lemma TextRead(raw: seq<byte>, s: seq<byte>, rest: seq<byte>)
    requires StringToken(raw, s, false)
    ensures ParseText(raw + rest) == Some(Read(s, rest)) && At(raw, 34)
  {
    hide FindEnd, Unescape;
    StringInFront(raw, s, rest);
  }

  lemma StringRead<N>(k: Codec<N>, raw: seq<byte>, s: seq<byte>, rest: seq<byte>, depth: nat)
    requires StringToken(raw, s, false)
    ensures Parse(k, raw + rest, depth) == Some(Read(Str(s), rest))
  {
    hide ParseText, ParseNumber, ParseItems, ParseMembers;
    TextRead(raw, s, rest);
    assert (raw + rest)[0] == 34;
  }

  lemma WordRead<N>(k: Codec<N>, d: Doc<N>, rest: seq<byte>, depth: nat)
    requires d.NullDoc? || d.TrueDoc? || d.FalseDoc?
    ensures Parse(k, Spell(d) + rest, depth) == Some(Read(Denoted(d), rest))
  {
    var t := Spell(d);
    assert NULL <= NULL + rest && FALSE <= FALSE + rest && TRUE <= TRUE + rest;
    assert (FALSE + rest)[0] == 102 && (TRUE + rest)[0] == 116;
    assert !(NULL <= FALSE + rest) && !(NULL <= TRUE + rest) && !(FALSE <= TRUE + rest);
    hide ParseItems, ParseMembers, ParseText, ParseNumber;
    assert (t + rest)[|t|..] == rest;
  }

  /** One turn of the loop of parse_array: blanks, a value, blanks, then a comma or the closing bracket. */
  lemma ItemTurn<N>(k: Codec<N>, i: Item<N>, next: seq<byte>, depth: nat)
    requires ItemFollows(k, i, false) && (At(next, 44) || At(next, 93))
    requires var u := i.after + next; Parse(k, Spell(i.doc) + u, depth) == Expected(Denoted(i.doc), u, depth + Depth(Denoted(i.doc)))
    ensures ParseItems(k, SpellItem(i) + next, depth) ==
            if depth + Depth(Denoted(i.doc)) > 1000 then None
            else if next[0] == 44 then Prepend(Denoted(i.doc), ParseItems(k, next[1..], depth))
            else Some(Read([Denoted(i.doc)], next[1..]))
  {
    hide Parse, Spell, Follows, Skip, Depth, Denoted;
    ItemShape(k, i, next);
  }

  /** What the loops find at a value between blanks. */
  lemma ItemShape<N>(k: Codec<N>, i: Item<N>, next: seq<byte>)
    requires ItemFollows(k, i, false) && next != [] && next[0] > 32
    ensures Skip(SpellItem(i) + next) == Spell(i.doc) + (i.after + next) && Skip(i.after + next) == next
    ensures var c := Skip(SpellItem(i) + next)[0]; c != 93 && c != 125
    ensures !NumberChar(next[0]) ==> Ends(i.after + next)
  {
    hide Spell, Follows, Skip;
    var u := i.after + next;
    SpellStarts(k, i.doc);
    SkipsTo(i.after, next);
    SkipsTo(i.before, Spell(i.doc) + u);
    Regroup(i.before, Spell(i.doc), i.after, next);
  }

  lemma Regroup(a: seq<byte>, b: seq<byte>, c: seq<byte>, d: seq<byte>)
    ensures (a + (b + c)) + d == a + (b + (c + d))
  {
  }

  /** One turn of the loop of parse_object: a name between blanks and a colon, then a value as in an array. */
  lemma PairTurn<N>(k: Codec<N>, p: Pair<N>, next: seq<byte>, depth: nat)
    requires PairsFollow(k, [p], false) && (At(next, 44) || At(next, 125))
    requires var i := p.item; var u := i.after + next;
             Parse(k, Spell(i.doc) + u, depth) == Expected(Denoted(i.doc), u, depth + Depth(Denoted(i.doc)))
    ensures var s, m := SpellPair(p, next), Member(p.key, Denoted(p.item.doc));
            && At(Skip(s), 34)
            && ParseMembers(k, s, depth) ==
               if depth + Depth(m.value) > 1000 then None
               else if next[0] == 44 then Prepend(m, ParseMembers(k, next[1..], depth))
               else Some(Read([m], next[1..]))
  {
    hide Parse, Spell, Follows, Skip, Depth, Denoted, ParseText;
    NameShape(p, SpellItem(p.item) + next);
    ItemShape(k, p.item, next);
  }

  lemma NameShape<N>(p: Pair<N>, next: seq<byte>)
    requires Blanks(p.before, false) && StringToken(p.raw, p.key, false) && Blanks(p.mid, false)
    ensures var s := p.before + (p.raw + (p.mid + ([58] + next)));
            ParseName(s) == Some(Read(p.key, next)) && At(Skip(s), 34)
  {
    hide ParseText, Skip;
    var u := [58] + next;
    var t := p.mid + u;
    TextRead(p.raw, p.key, t);
    SkipsTo(p.before, p.raw + t);
    SkipsTo(p.mid, u);
    assert u[1..] == next;
  }

  lemma {:induction false} ItemsRead<N>(k: Codec<N>, items: seq<Item<N>>, rest: seq<byte>, depth: nat)
    requires items != [] && ItemsFollow(k, items, false) && depth <= 1000
    ensures ParseItems(k, SpellItems(items) + ([93] + rest), depth) == Expected(DenotedItems(items), rest, depth + ItemsDepth(DenotedItems(items)))
    decreases items, 1
  {
    hide Parse, ParseItems, Spell, Denoted, Follows, Skip, SpellItem, Depth;
    var i, tail, end := items[0], items[1..], [93] + rest;
    var next := if tail == [] then end else [44] + (SpellItems(tail) + end);
    ItemShape(k, i, next);
    DocRead(k, i.doc, i.after + next, depth);
    ItemTurn(k, i, next, depth);
    if tail == [] {
      assert SpellItems(items) + end == SpellItem(i) + next;
      assert next[1..] == rest && DenotedItems(items) == [Denoted(i.doc)];
    } else {
      Regroup(SpellItem(i), [44], SpellItems(tail), end);
      assert next[1..] == SpellItems(tail) + end;
      ItemsRead(k, tail, rest, depth);
    }
  }

  lemma {:induction false} PairsRead<N>(k: Codec<N>, pairs: seq<Pair<N>>, rest: seq<byte>, depth: nat)
    requires pairs != [] && PairsFollow(k, pairs, false) && depth <= 1000
    ensures var s := SpellPairs(pairs) + ([125] + rest);
            && At(Skip(s), 34)
            && ParseMembers(k, s, depth) == Expected(DenotedPairs(pairs), rest, depth + MembersDepth(DenotedPairs(pairs)))
    decreases pairs, 1
  {
    hide Parse, ParseMembers, Spell, Denoted, Follows, Skip, SpellItem, SpellPair, Depth, StringToken, Blanks;
    var p, tail, end := pairs[0], pairs[1..], [125] + rest;
    var more := if tail == [] then [] else [44] + SpellPairs(tail);
    var next := if tail == [] then end else [44] + (SpellPairs(tail) + end);
    ItemShape(k, p.item, next);
    DocRead(k, p.item.doc, p.item.after + next, depth);
    PairTurn(k, p, next, depth);
    PairMore(p, more, end);
    if tail == [] {
      assert [] + end == end && next[1..] == rest && DenotedPairs(pairs) == [Member(p.key, Denoted(p.item.doc))];
    } else {
      Assoc([44], SpellPairs(tail), end);
      assert next[1..] == SpellPairs(tail) + end;
      PairsRead(k, tail, rest, depth);
    }
  }

  lemma PairMore<N>(p: Pair<N>, more: seq<byte>, end: seq<byte>)
    ensures SpellPair(p, more) + end == SpellPair(p, more + end)
  {
    hide SpellItem;
    RegroupAll(p.before, p.raw, p.mid, [58], SpellItem(p.item), more, end);
  }

  lemma RegroupAll(a: seq<byte>, b: seq<byte>, c: seq<byte>, d: seq<byte>, e: seq<byte>, f: seq<byte>, g: seq<byte>)
    ensures (a + (b + (c + (d + (e + f))))) + g == a + (b + (c + (d + (e + (f + g)))))
  {
    Assoc(e, f, g);
    Regroup(c, d, e + f, g);
    Regroup(a, b, c + (d + (e + f)), g);
  }

  lemma {:induction false} ArrayRead<N>(k: Codec<N>, gap: seq<byte>, items: seq<Item<N>>, rest: seq<byte>, depth: nat)
    requires Blanks(gap, false) && ItemsFollow(k, items, false) && depth <= 1000
    ensures var d := ArrayDoc(gap, items); Parse(k, Spell(d) + rest, depth) == Expected(Denoted(d), rest, depth + Depth(Denoted(d)))
    decreases items, 2
  {
    hide Parse, ParseItems, Skip, ItemsFollow, SpellItems;
    var t, end := if items == [] then gap else SpellItems(items), [93] + rest;
    var s := [91] + (t + end);
    Regroup([91], t, [93], rest);
    assert s[1..] == t + end && end[1..] == rest;
    ContainerCase(k, s, depth);
    if items == [] {
      SkipsTo(gap, end);
    } else {
      ItemsStart(k, items, end);
      if depth < 1000 { ItemsRead(k, items, rest, depth + 1); }
    }
  }

  lemma ItemsStart<N>(k: Codec<N>, items: seq<Item<N>>, end: seq<byte>)
    requires items != [] && ItemsFollow(k, items, false) && At(end, 93)
    ensures !At(Skip(SpellItems(items) + end), 93)
  {
    hide Skip, Spell, Follows, SpellItem;
    var next := (if |items| == 1 then [] else [44] + SpellItems(items[1..])) + end;
    ItemShape(k, items[0], next);
    Assoc(SpellItem(items[0]), if |items| == 1 then [] else [44] + SpellItems(items[1..]), end);
  }

  lemma {:induction false} ObjectRead<N>(k: Codec<N>, gap: seq<byte>, pairs: seq<Pair<N>>, rest: seq<byte>, depth: nat)
    requires Blanks(gap, false) && PairsFollow(k, pairs, false) && depth <= 1000
    ensures var d := ObjectDoc(gap, pairs); Parse(k, Spell(d) + rest, depth) == Expected(Denoted(d), rest, depth + Depth(Denoted(d)))
    decreases pairs, 2
  {
    hide Parse, ParseMembers, Skip, PairsFollow, SpellPairs;
    var t, end := if pairs == [] then gap else SpellPairs(pairs), [125] + rest;
    var s := [123] + (t + end);
    Regroup([123], t, [125], rest);
    assert s[1..] == t + end && end[1..] == rest;
    ContainerCase(k, s, depth);
    if pairs == [] {
      SkipsTo(gap, end);
    } else if depth < 1000 {
      PairsRead(k, pairs, rest, depth + 1);
    }
  }

  /** A generated text, followed by anything that does not continue a number, parses to the value it denotes and no
      further, exactly when its containers fit under the nesting limit. */
  lemma {:induction false} DocRead<N>(k: Codec<N>, d: Doc<N>, rest: seq<byte>, depth: nat)
    requires Follows(k, d, false) && Ends(rest) && depth <= 1000
    ensures Parse(k, Spell(d) + rest, depth) == Expected(Denoted(d), rest, depth + Depth(Denoted(d)))
    decreases d, 1
  {
    hide Parse, ItemsFollow, PairsFollow, DenotedItems, DenotedPairs, SpellItems, SpellPairs, NumberToken, StringToken;
    match d
    case NumberDoc(t, n) => NumberRead(k, t, n, rest, depth);
    case StringDoc(raw, s) => StringRead(k, raw, s, rest, depth);
    case ArrayDoc(gap, items) => ArrayRead(k, gap, items, rest, depth);
    case ObjectDoc(gap, pairs) => ObjectRead(k, gap, pairs, rest, depth);
    case _ => WordRead(k, d, rest, depth);
  }

  // ---------- every printed text is generated ----------

  /** The characters of a printed string. */
  function CharOf(b: byte): JsonRfc.Char {
    if b == 34 || b == 92 then JsonRfc.Short(b)
    else if b == 8 then JsonRfc.Short(98)
    else if b == 12 then JsonRfc.Short(102)
    else if b == 10 then JsonRfc.Short(110)
    else if b == 13 then JsonRfc.Short(114)
    else if b == 9 then JsonRfc.Short(116)
    else if b < 32 then JsonRfc.Unit([48, 48, HexDigit(b / 16), HexDigit(b % 16)])
    else JsonRfc.Plain(b)
  }

  lemma CharIs(b: byte)
    ensures var ch := CharOf(b); JsonRfc.Generated(ch) && JsonRfc.Written(ch) == EscapeByte(b) && JsonRfc.Denoted(ch) == [b]
  {
    hide JsonRfc.Digit, JsonRfc.IsHex, JsonRfc.Number, HexDigit, Utf8;
    if b < 32 && b !in {8, 9, 10, 12, 13} { ControlIs(b); }
  }

  lemma ControlIs(b: byte)
    requires b < 32
    ensures var ch := JsonRfc.Unit([48, 48, HexDigit(b / 16), HexDigit(b % 16)]); JsonRfc.Generated(ch) && JsonRfc.Denoted(ch) == [b]
  {
    JsonRfc.NumberIs([48, 48, HexDigit(b / 16), HexDigit(b % 16)]);
    hide JsonRfc.Number;
  }

  function CharsOf(s: seq<byte>): seq<JsonRfc.Char> {
    if s == [] then [] else [CharOf(s[0])] + CharsOf(s[1..])
  }

  lemma {:induction false} CharsAre(s: seq<byte>)
    ensures var c := CharsOf(s); JsonRfc.AllGenerated(c) && JsonRfc.Text(c) == Escape(s) && JsonRfc.Meaning(c) == s
  {
    hide CharOf, JsonRfc.Generated, JsonRfc.Written, JsonRfc.Denoted, EscapeByte;
    if s != [] {
      CharIs(s[0]);
      CharsAre(s[1..]);
      assert CharsOf(s)[1..] == CharsOf(s[1..]);
    }
  }

  lemma QuotedIsString(s: seq<byte>, strict: bool)
    ensures StringToken(Quoted(s), s, strict)
  {
    hide ParseText;
    CharsAre(s);
    Assoc([34], Escape(s), [34]);
    StringIsLax(Quoted(s), s);
  }

  function Derive<N>(k: Codec<N>, v: Value<N>, format: bool, depth: nat): Doc<N>
    decreases v, 1
  {
    match v
    case Null => NullDoc
    case Bool(b) => if b then TrueDoc else FalseDoc
    case Number(n) => NumberDoc(k.show(n), n)
    case Str(s) => StringDoc(Quoted(s), s)
    case Arr(items) => ArrayDoc([], DeriveItems(k, items, format, depth + 1, []))
    case Obj(members) =>
      ObjectDoc(If(format, [NEWLINE]) + If(format, Tabs(depth)), DerivePairs(k, members, format, depth + 1, If(format, Tabs(depth))))
  }

  function DeriveItems<N>(k: Codec<N>, items: seq<Value<N>>, format: bool, depth: nat, lead: seq<byte>): (r: seq<Item<N>>)
    ensures |r| == |items|
    decreases items, 0
  {
    if items == [] then []
    else [Item(lead, Derive(k, items[0], format, depth), [])] + DeriveItems(k, items[1..], format, depth, If(format, [SPACE]))
  }

  function DerivePairs<N>(k: Codec<N>, members: seq<Member<N>>, format: bool, depth: nat, tabs: seq<byte>): (r: seq<Pair<N>>)
    ensures |r| == |members|
    decreases members, 0
  {
    if members == [] then []
    else
      [DerivePair(k, members[0], format, depth, if |members| == 1 then If(format, [NEWLINE]) + tabs else [])]
      + DerivePairs(k, members[1..], format, depth, tabs)
  }

  function DerivePair<N>(k: Codec<N>, m: Member<N>, format: bool, depth: nat, after: seq<byte>): Pair<N>
    decreases m, 2
  {
    Pair(If(format, [NEWLINE]) + If(format, Tabs(depth)), Quoted(m.key), m.key, [],
         Item(If(format, [TAB]), Derive(k, m.value, format, depth), after))
  }

  /** Every number is shown as a number of the standard. */
  ghost predicate ShowsNumbers<N(!new)>(k: Codec<N>) {
    forall n: N :: RfcNumber(k.show(n))
  }

  lemma NumberIsShown<N(!new)>(k: Codec<N>, n: N, strict: bool)
    requires Inverts(k) && (strict ==> ShowsNumbers(k))
    ensures NumberToken(k, k.show(n), n, strict)
  {
  }

  /** What the printer writes is generated by the grammar and denotes the value printed, strictly so if numbers are shown
      as the standard has them. */
  lemma {:induction false} PrintIsGenerated<N(!new)>(k: Codec<N>, v: Value<N>, format: bool, depth: nat, strict: bool)
    requires Inverts(k) && (strict ==> ShowsNumbers(k))
    ensures var d := Derive(k, v, format, depth); Follows(k, d, strict) && Denoted(d) == v && Spell(d) == Print(k, v, format, depth)
    decreases v, 1
  {
    hide NumberToken, StringToken, Inverts, ShowsNumbers, Quoted, PrintItems, PrintMembers, DeriveItems, DerivePairs, ItemsFollow, PairsFollow, SpellItems, SpellPairs;
    match v
    case Number(n) => NumberIsShown(k, n, strict);
    case Str(s) => QuotedIsString(s, strict);
    case Arr(items) => ArrayGenerated(k, items, format, depth, strict);
    case Obj(members) => ObjectGenerated(k, members, format, depth, strict);
    case _ =>
  }

  lemma {:induction false} ArrayGenerated<N(!new)>(k: Codec<N>, items: seq<Value<N>>, format: bool, depth: nat, strict: bool)
    requires Inverts(k) && (strict ==> ShowsNumbers(k))
    ensures var v := Arr(items); var d := Derive(k, v, format, depth);
            Follows(k, d, strict) && Denoted(d) == v && Spell(d) == Print(k, v, format, depth)
    decreases items, 1
  {
    hide Inverts, ShowsNumbers, DeriveItems, PrintItems, ItemsFollow, DenotedItems, SpellItems, Blanks;
    GapIsBlank(format, depth, strict);
    ItemsGenerated(k, items, format, depth + 1, [], strict);
    var t := PrintItems(k, items, format, depth + 1);
    assert [] + t == t;
  }

  lemma {:induction false} ObjectGenerated<N(!new)>(k: Codec<N>, members: seq<Member<N>>, format: bool, depth: nat, strict: bool)
    requires Inverts(k) && (strict ==> ShowsNumbers(k))
    ensures var v := Obj(members); var d := Derive(k, v, format, depth);
            Follows(k, d, strict) && Denoted(d) == v && Spell(d) == Print(k, v, format, depth)
    decreases members, 1
  {
    hide Inverts, ShowsNumbers, DerivePairs, PrintMembers, PairsFollow, DenotedPairs, SpellPairs, If, Blanks;
    var line, t, tabs := If(format, [NEWLINE]), PrintMembers(k, members, format, depth + 1), If(format, Tabs(depth));
    GapIsBlank(format, depth, strict);
    PairsGenerated(k, members, format, depth + 1, tabs, strict);
    Regroup(line, t, tabs, [125]);
    if members == [] { Assoc(line, tabs, [125]); assert [] + (tabs + [125]) == tabs + [125]; }
  }

  lemma GapIsBlank(format: bool, depth: nat, strict: bool)
    ensures Blanks(If(format, [SPACE]), strict) && Blanks(If(format, [TAB]), strict) && Blanks([], strict)
    ensures Blanks(If(format, Tabs(depth)), strict) && Blanks(If(format, [NEWLINE]) + If(format, Tabs(depth)), strict)
  {
  }

  lemma {:induction false} ItemsGenerated<N(!new)>(k: Codec<N>, items: seq<Value<N>>, format: bool, depth: nat, lead: seq<byte>, strict: bool)
    requires Inverts(k) && (strict ==> ShowsNumbers(k)) && Blanks(lead, strict)
    ensures var r, t := DeriveItems(k, items, format, depth, lead), PrintItems(k, items, format, depth);
            ItemsFollow(k, r, strict) && DenotedItems(r) == items && if items == [] then t == [] else SpellItems(r) == lead + t
    decreases items, 0
  {
    hide Inverts, ShowsNumbers, Follows, Spell, SpellItems, Denoted, Print, Derive, If, Blanks;
    GapIsBlank(format, depth, strict);
    if items != [] {
      var gap := If(format, [SPACE]);
      var r, more := DeriveItems(k, items, format, depth, lead), DeriveItems(k, items[1..], format, depth, gap);
      PrintIsGenerated(k, items[0], format, depth, strict);
      ItemsGenerated(k, items[1..], format, depth, gap, strict);
      assert r[1..] == more && items == [items[0]] + items[1..];
      ItemPrinted(k, items, format, depth, lead);
    }
  }

  lemma {:induction false} ItemPrinted<N>(k: Codec<N>, items: seq<Value<N>>, format: bool, depth: nat, lead: seq<byte>)
    requires items != [] && Spell(Derive(k, items[0], format, depth)) == Print(k, items[0], format, depth)
    requires var gap := If(format, [SPACE]);
             |items| > 1 ==> SpellItems(DeriveItems(k, items[1..], format, depth, gap)) == gap + PrintItems(k, items[1..], format, depth)
    requires DeriveItems(k, items, format, depth, lead)[1..] == DeriveItems(k, items[1..], format, depth, If(format, [SPACE]))
    ensures SpellItems(DeriveItems(k, items, format, depth, lead)) == lead + PrintItems(k, items, format, depth)
  {
    hide Spell, Derive, Print, If;
    var t := Print(k, items[0], format, depth);
    assert t + [] == t;
    if |items| > 1 { Assoc(lead, t, [44] + (If(format, [SPACE]) + PrintItems(k, items[1..], format, depth))); }
  }

  lemma {:induction false} PairsGenerated<N(!new)>(k: Codec<N>, members: seq<Member<N>>, format: bool, depth: nat, tabs: seq<byte>, strict: bool)
    requires Inverts(k) && (strict ==> ShowsNumbers(k)) && Blanks(tabs, strict) && Blanks(If(format, [NEWLINE]) + tabs, strict)
    ensures var r, t := DerivePairs(k, members, format, depth, tabs), PrintMembers(k, members, format, depth);
            && PairsFollow(k, r, strict) && DenotedPairs(r) == members
            && if members == [] then t == [] else SpellPairs(r) == If(format, [NEWLINE]) + (t + tabs)
    decreases members, 0
  {
    hide Inverts, ShowsNumbers, Follows, Spell, Denoted, Print, Derive, Quoted, StringToken, SpellPairs, If, Blanks;
    GapIsBlank(format, depth, strict);
    if members != [] {
      var r, more := DerivePairs(k, members, format, depth, tabs), DerivePairs(k, members[1..], format, depth, tabs);
      PrintIsGenerated(k, members[0].value, format, depth, strict);
      QuotedIsString(members[0].key, strict);
      PairsGenerated(k, members[1..], format, depth, tabs, strict);
      assert r[1..] == more && members == [members[0]] + members[1..];
      PairPrinted(k, members, format, depth, tabs);
    }
  }

  /** The text of the first member and what follows it, regrouped from the grammar's form to the printer's. */
  lemma {:induction false} PairPrinted<N>(k: Codec<N>, members: seq<Member<N>>, format: bool, depth: nat, tabs: seq<byte>)
    requires members != [] && Spell(Derive(k, members[0].value, format, depth)) == Print(k, members[0].value, format, depth)
    requires |members| > 1 ==> SpellPairs(DerivePairs(k, members[1..], format, depth, tabs))
                               == If(format, [NEWLINE]) + (PrintMembers(k, members[1..], format, depth) + tabs)
    ensures SpellPairs(DerivePairs(k, members, format, depth, tabs)) == If(format, [NEWLINE]) + (PrintMembers(k, members, format, depth) + tabs)
  {
    hide Spell, Derive, Print, Quoted, SpellPairs, DerivePairs, PrintMembers, If, Tabs;
    PrintedFirst(k, members, format, depth);
    DerivedFirst(k, members, format, depth, tabs);
    var line, lead, q, tab := If(format, [NEWLINE]), If(format, Tabs(depth)), Quoted(members[0].key), If(format, [TAB]);
    var t, rest := Print(k, members[0].value, format, depth), PrintMembers(k, members[1..], format, depth);
    if |members| == 1 {
      PairAlgebra(line, lead, q, tab, t, rest, tabs, true);
    } else {
      PairAlgebra(line, lead, q, tab, t, rest, tabs, false);
    }
  }

  lemma PairAlgebra(line: seq<byte>, lead: seq<byte>, q: seq<byte>, tab: seq<byte>, t: seq<byte>, rest: seq<byte>, tabs: seq<byte>, last: bool)
    ensures var after, more := if last then line + tabs else [], if last then [] else [44] + (line + (rest + tabs));
            var behind := if last then line else [44] + (line + rest);
            (line + lead) + (q + ([] + ([58] + ((tab + (t + after)) + more)))) == line + ((lead + (q + ([58] + (tab + (t + behind))))) + tabs)
  {
    var after, more := if last then line + tabs else [], if last then [] else [44] + (line + (rest + tabs));
    var behind := if last then line else [44] + (line + rest);
    assert after + more == behind + tabs by {
      if !last { Regroup([44], line, rest, tabs); }
    }
    Regroup(tab, t, after, more);
    RegroupAll(lead, q, [58], tab, t, behind, tabs);
    assert [] + ([58] + (tab + (t + (behind + tabs)))) == [58] + (tab + (t + (behind + tabs)));
    Assoc(line, lead, q + ([58] + (tab + (t + (behind + tabs)))));
  }

  lemma {:induction false} DerivedFirst<N>(k: Codec<N>, members: seq<Member<N>>, format: bool, depth: nat, tabs: seq<byte>)
    requires members != []
    ensures var line, more := If(format, [NEWLINE]), DerivePairs(k, members[1..], format, depth, tabs);
            SpellPairs(DerivePairs(k, members, format, depth, tabs)) ==
            (line + If(format, Tabs(depth))) + (Quoted(members[0].key) + ([] + ([58] + ((If(format, [TAB])
            + (Spell(Derive(k, members[0].value, format, depth)) + (if |members| == 1 then line + tabs else [])))
            + (if |members| == 1 then [] else [44] + SpellPairs(more))))))
  {
    hide Spell, Derive, Quoted, If;
    var r := DerivePairs(k, members, format, depth, tabs);
    assert r[1..] == DerivePairs(k, members[1..], format, depth, tabs);
    assert r[0] == DerivePair(k, members[0], format, depth, if |members| == 1 then If(format, [NEWLINE]) + tabs else []);
    assert SpellPairs(r) == SpellPair(r[0], if |r| == 1 then [] else [44] + SpellPairs(r[1..]));
  }

  lemma PrintedFirst<N>(k: Codec<N>, members: seq<Member<N>>, format: bool, depth: nat)
    requires members != []
    ensures var line, rest := If(format, [NEWLINE]), PrintMembers(k, members[1..], format, depth);
            PrintMembers(k, members, format, depth) ==
            If(format, Tabs(depth)) + (Quoted(members[0].key) + ([58] + (If(format, [TAB]) + (Print(k, members[0].value, format, depth)
            + (if |members| == 1 then line else [44] + (line + rest))))))
  {
    hide Print, Quoted;
    if |members| == 1 { assert PrintMembers(k, members[1..], format, depth) == []; }
  }

  // ---------- formatting adds blanks between tokens and nothing else ----------

  /** The same text without blanks. */
  function Strip<N>(d: Doc<N>): Doc<N>
    decreases d, 1
  {
    match d
    case ArrayDoc(_, items) => ArrayDoc([], StripItems(items))
    case ObjectDoc(_, pairs) => ObjectDoc([], StripPairs(pairs))
    case _ => d
  }

  function StripItems<N>(items: seq<Item<N>>): seq<Item<N>>
    decreases items, 0
  {
    if items == [] then [] else [Item([], Strip(items[0].doc), [])] + StripItems(items[1..])
  }

  function StripPairs<N>(pairs: seq<Pair<N>>): seq<Pair<N>>
    decreases pairs, 0
  {
    if pairs == [] then []
    else [Pair([], pairs[0].raw, pairs[0].key, [], Item([], Strip(pairs[0].item.doc), []))] + StripPairs(pairs[1..])
  }

  /** Printed with or without format, a value has the same tokens; without format there are no blanks. */
  lemma {:induction false} SameTokens<N>(k: Codec<N>, v: Value<N>, format: bool, depth: nat, flat: nat)
    ensures Strip(Derive(k, v, format, depth)) == Derive(k, v, false, flat)
    decreases v, 1
  {
    match v
    case Arr(items) => SameItems(k, items, format, depth + 1, flat + 1, []);
    case Obj(members) =>
      SamePairs(k, members, format, depth + 1, flat + 1, If(format, Tabs(depth)));
      assert If(false, [NEWLINE]) + If(false, Tabs(flat)) == [];
    case _ =>
  }

  lemma {:induction false} SameItems<N>(k: Codec<N>, items: seq<Value<N>>, format: bool, depth: nat, flat: nat, lead: seq<byte>)
    ensures StripItems(DeriveItems(k, items, format, depth, lead)) == DeriveItems(k, items, false, flat, [])
    decreases items, 0
  {
    hide Derive, Strip;
    if items != [] {
      SameTokens(k, items[0], format, depth, flat);
      SameItems(k, items[1..], format, depth, flat, If(format, [SPACE]));
      assert DeriveItems(k, items, format, depth, lead)[1..] == DeriveItems(k, items[1..], format, depth, If(format, [SPACE]));
    }
  }

  lemma {:induction false} SamePairs<N>(k: Codec<N>, members: seq<Member<N>>, format: bool, depth: nat, flat: nat, tabs: seq<byte>)
    ensures StripPairs(DerivePairs(k, members, format, depth, tabs)) == DerivePairs(k, members, false, flat, [])
    decreases members, 0
  {
    hide Derive, Strip;
    if members != [] {
      SameTokens(k, members[0].value, format, depth, flat);
      SamePairs(k, members[1..], format, depth, flat, tabs);
      assert DerivePairs(k, members, format, depth, tabs)[1..] == DerivePairs(k, members[1..], format, depth, tabs);
      assert If(false, [NEWLINE]) + If(false, Tabs(flat)) == [] && If(false, [NEWLINE]) + [] == [];
    }
  }

  /** cJSON_Parse of any JSON text of the standard, NUL included: the value it denotes, up to the blanks behind it,
      exactly when at most 1000 containers nest. */
  lemma {:induction false} EveryTextIsRead<N>(k: Codec<N>, lead: seq<byte>, d: Doc<N>, trail: seq<byte>)
    requires Follows(k, d, true) && Blanks(lead, true) && Blanks(trail, true)
    ensures Parse(k, Skip(SpellItem(Item(lead, d, trail)) + [0]), 0) ==
            if Depth(Denoted(d)) <= 1000 then Some(Read(Denoted(d), trail + [0])) else None
  {
    hide Parse, Spell, Denoted, Follows, Skip, Depth;
    StrictIsLax(k, d);
    SpellStarts(k, d);
    SkipsTo(lead, Spell(d) + (trail + [0]));
    Regroup(lead, Spell(d), trail, [0]);
    DocRead(k, d, trail + [0], 0);
  }

  /** The text of a value, followed by anything that does not continue a number, parses to that
      value and no further, exactly when its containers fit under the nesting limit. */
  lemma {:induction false} ValueBack<N(!new)>(k: Codec<N>, v: Value<N>, format: bool, indent: nat, rest: seq<byte>, depth: nat)
    requires Inverts(k) && Ends(rest) && depth <= 1000
    ensures Parse(k, Print(k, v, format, indent) + rest, depth) == Expected(v, rest, depth + Depth(v))
  {
    hide Inverts, Ends, Parse, Print, Derive, Denoted, Spell, Follows, Depth;
    PrintIsGenerated(k, v, format, indent, false);
    DocRead(k, Derive(k, v, format, indent), rest, depth);
  }

  /** cJSON_Parse of what cJSON_Print or cJSON_PrintUnformatted returned, NUL included: the value
      comes back, and the parser stops at the NUL, exactly when at most 1000 containers nest. */
  lemma {:induction false} RoundTrip<N(!new)>(k: Codec<N>, v: Value<N>, format: bool)
    requires Inverts(k)
    ensures var text := Print(k, v, format, 0);
            Parse(k, Skip(text + [0]), 0) == if Depth(v) <= 1000 then Some(Read(v, [0])) else None
  {
    hide Inverts, Parse, Print, Derive, Denoted, Spell, Follows, Depth;
    PrintIsGenerated(k, v, format, 0, false);
    SpellStarts(k, Derive(k, v, format, 0));
    SkipsTo([], Print(k, v, format, 0) + [0]);
    ValueBack(k, v, format, 0, [0], 0);
  }

  // ---------- every text that is read is generated, by the parser's tokens ----------

  /** Like strtod, the scanner reads the same number when nothing follows the bytes it used. */
  ghost predicate Local<N(!new)>(k: Codec<N>) {
    forall t: seq<byte> :: k.scan(t).Some? && k.scan(t).value.used <= |t| ==> k.scan(t[..k.scan(t).value.used]) == k.scan(t)
  }

  lemma {:induction false} SkipIs(s: seq<byte>)
    ensures var n := |s| - |Skip(s)|; Blanks(s[..n], false) && s == s[..n] + Skip(s) && Skip(s) == s[n..]
  {
    if |s| > 1 && s[0] <= 32 {
      SkipIs(s[1..]);
      var n := |s| - |Skip(s)|;
      assert s[..n] == [s[0]] + s[1..][..n - 1] && s[1..][n - 1..] == s[n..];
    }
  }

  lemma {:induction false} RunIsNumber(s: seq<byte>, limit: nat)
    ensures forall i :: 0 <= i < Run(s, limit) ==> NumberChar(s[i])
  {
    if limit > 0 && s != [] && NumberChar(s[0]) {
      RunIsNumber(s[1..], limit - 1);
      forall i | 0 < i < Run(s, limit) ensures NumberChar(s[i]) {
        assert s[i] == s[1..][i - 1];
      }
    }
  }

  lemma NumberSplits<N(!new)>(k: Codec<N>, s: seq<byte>)
    requires Local(k) && s != [] && (s[0] == 45 || 48 <= s[0] <= 57) && ParseNumber(k, s).Some?
    ensures var r, n := ParseNumber(k, s).value, |s| - |ParseNumber(k, s).value.rest|;
            r.value.Number? && r.rest == s[n..] && NumberToken(k, s[..n], r.value.n, false)
  {
    var t := s[..Run(s, 63)];
    var n := k.scan(t).value.used;
    RunIsNumber(s, 63);
    assert t[..n] == s[..n];
  }

  lemma TextSplits(s: seq<byte>)
    requires ParseText(s).Some?
    ensures var r, n := ParseText(s).value, |s| - |ParseText(s).value.rest|;
            r.rest == s[n..] && s == s[..n] + r.rest && StringToken(s[..n], r.value, false)
  {
    var r, n := ParseText(s).value, |s| - |ParseText(s).value.rest|;
    assert r.rest == s[n..] && s == s[..n] + r.rest;
    StringInFront(s[..n], r.value, r.rest);
  }

  /** What parse_value accepts by its first byte when it is no container. */
  lemma ScalarCase<N>(k: Codec<N>, s: seq<byte>, depth: nat)
    requires Parse(k, s, depth).Some? && !At(s, 91) && !At(s, 123)
    ensures var r := Parse(k, s, depth).value;
            || (r.value.Null? && s == [110, 117, 108, 108] + r.rest)
            || (r.value == Bool(true) && s == [116, 114, 117, 101] + r.rest)
            || (r.value == Bool(false) && s == [102, 97, 108, 115, 101] + r.rest)
            || (At(s, 34) && r.value.Str? && ParseText(s) == Some(Read(r.value.s, r.rest)))
            || (s != [] && (s[0] == 45 || 48 <= s[0] <= 57) && r.value.Number? && ParseNumber(k, s) == Some(r))
  {
    hide ParseItems, ParseMembers, ParseText;
  }

  lemma GeneratesScalar<N(!new)>(k: Codec<N>, s: seq<byte>, depth: nat) returns (d: Doc<N>)
    requires Local(k) && Parse(k, s, depth).Some? && !At(s, 91) && !At(s, 123)
    ensures var r := Parse(k, s, depth).value;
            Follows(k, d, false) && Denoted(d) == r.value && s == Spell(d) + r.rest && Depth(r.value) == 0
  {
    hide Local, Parse, ParseText, ParseNumber, NumberToken, StringToken;
    ScalarCase(k, s, depth);
    var r := Parse(k, s, depth).value;
    if r.value.Null? {
      d := NullDoc;
    } else if r.value.Bool? {
      d := if r.value.b then TrueDoc else FalseDoc;
    } else if r.value.Str? {
      TextSplits(s);
      d := StringDoc(s[..|s| - |r.rest|], r.value.s);
    } else {
      NumberSplits(k, s);
      d := NumberDoc(s[..|s| - |r.rest|], r.value.n);
    }
  }

  /** Whatever the parser accepts at the front of a text is generated by the grammar with the parser's tokens, denotes
      the value returned, and nests within the limit. */
  lemma {:induction false} Generates<N(!new)>(k: Codec<N>, s: seq<byte>, depth: nat) returns (d: Doc<N>)
    requires Local(k) && depth <= 1000 && Parse(k, s, depth).Some?
    ensures var r := Parse(k, s, depth).value;
            Follows(k, d, false) && Denoted(d) == r.value && s == Spell(d) + r.rest && depth + Depth(r.value) <= 1000
    decreases |s|, 1
  {
    hide Local, Parse, Follows, Denoted, Spell, Depth;
    if At(s, 91) {
      d := GeneratesArray(k, s, depth);
    } else if At(s, 123) {
      d := GeneratesObject(k, s, depth);
    } else {
      d := GeneratesScalar(k, s, depth);
    }
  }

  lemma EmptySplits(open: byte, t: seq<byte>, close: byte) returns (gap: seq<byte>)
    requires At(Skip(t), close)
    ensures Blanks(gap, false) && [open] + t == ([open] + (gap + [close])) + Skip(t)[1..]
  {
    SkipIs(t);
    gap := t[..|t| - |Skip(t)|];
    assert Skip(t) == [close] + Skip(t)[1..];
    Regroup([open], gap, [close], Skip(t)[1..]);
  }

  lemma {:induction false} GeneratesArray<N(!new)>(k: Codec<N>, s: seq<byte>, depth: nat) returns (d: Doc<N>)
    requires Local(k) && depth <= 1000 && At(s, 91) && Parse(k, s, depth).Some?
    ensures var r := Parse(k, s, depth).value;
            Follows(k, d, false) && Denoted(d) == r.value && s == Spell(d) + r.rest && depth + Depth(r.value) <= 1000
    decreases |s|, 0
  {
    hide Local, Parse, ParseItems, Skip;
    ContainerCase(k, s, depth);
    var t := s[1..];
    assert s == [91] + t;
    if At(Skip(t), 93) {
      var gap := EmptySplits(91, t, 93);
      d := ArrayDoc(gap, []);
    } else {
      var items := GeneratesItems(k, t, depth + 1);
      d := ArrayDoc([], items);
      hide SpellItems, ItemsFollow, DenotedItems;
      Regroup([91], SpellItems(items), [93], ParseItems(k, t, depth + 1).value.rest);
    }
  }

  lemma {:induction false} GeneratesObject<N(!new)>(k: Codec<N>, s: seq<byte>, depth: nat) returns (d: Doc<N>)
    requires Local(k) && depth <= 1000 && At(s, 123) && Parse(k, s, depth).Some?
    ensures var r := Parse(k, s, depth).value;
            Follows(k, d, false) && Denoted(d) == r.value && s == Spell(d) + r.rest && depth + Depth(r.value) <= 1000
    decreases |s|, 0
  {
    hide Local, Parse, ParseMembers, Skip;
    ContainerCase(k, s, depth);
    var t := s[1..];
    assert s == [123] + t;
    if At(Skip(t), 125) {
      var gap := EmptySplits(123, t, 125);
      d := ObjectDoc(gap, []);
    } else {
      var pairs := GeneratesPairs(k, t, depth + 1);
      d := ObjectDoc([], pairs);
      hide SpellPairs, PairsFollow, DenotedPairs;
      Regroup([123], SpellPairs(pairs), [125], ParseMembers(k, t, depth + 1).value.rest);
    }
  }

  /** The name in front of a member's value. */
  lemma NameSplits(s: seq<byte>) returns (before: seq<byte>, raw: seq<byte>, mid: seq<byte>)
    requires ParseName(s).Some?
    ensures Blanks(before, false) && StringToken(raw, ParseName(s).value.value, false) && Blanks(mid, false)
    ensures s == before + (raw + (mid + ([58] + ParseName(s).value.rest)))
  {
    hide ParseText, Skip, StringToken, Blanks;
    var name := ParseText(Skip(s)).value;
    before := BlanksSplit(s);
    raw := TextPart(Skip(s));
    mid := BlanksSplit(name.rest);
    assert Skip(name.rest) == [58] + Skip(name.rest)[1..];
  }

  lemma BlanksSplit(s: seq<byte>) returns (b: seq<byte>)
    ensures Blanks(b, false) && s == b + Skip(s)
  {
    SkipIs(s);
    b := s[..|s| - |Skip(s)|];
  }

  lemma TextPart(s: seq<byte>) returns (raw: seq<byte>)
    requires ParseText(s).Some?
    ensures s == raw + ParseText(s).value.rest && StringToken(raw, ParseText(s).value.value, false)
  {
    TextSplits(s);
    raw := s[..|s| - |ParseText(s).value.rest|];
  }

  /** A value between blanks, up to what follows it. */
  lemma {:induction false} GeneratesItem<N(!new)>(k: Codec<N>, s: seq<byte>, depth: nat) returns (i: Item<N>)
    requires Local(k) && depth <= 1000 && Parse(k, Skip(s), depth).Some?
    ensures var v := Parse(k, Skip(s), depth).value;
            ItemFollows(k, i, false) && Denoted(i.doc) == v.value && s == SpellItem(i) + Skip(v.rest) && depth + Depth(v.value) <= 1000
    decreases |s|, 2
  {
    hide Local, Parse, Skip, Follows, Spell, Denoted, Depth, Blanks;
    var v := Parse(k, Skip(s), depth).value;
    var d := Generates(k, Skip(s), depth);
    var before := BlanksSplit(s);
    var after := BlanksSplit(v.rest);
    i := Item(before, d, after);
    Regroup(before, Spell(d), after, Skip(v.rest));
  }

  lemma {:induction false} GeneratesItems<N(!new)>(k: Codec<N>, s: seq<byte>, depth: nat) returns (items: seq<Item<N>>)
    requires Local(k) && depth <= 1000 && ParseItems(k, s, depth).Some?
    ensures var r := ParseItems(k, s, depth).value;
            && items != [] && ItemsFollow(k, items, false) && DenotedItems(items) == r.value
            && s == SpellItems(items) + ([93] + r.rest) && depth + ItemsDepth(r.value) <= 1000
    decreases |s|, 3
  {
    hide Local, Parse, Skip, ItemFollows, SpellItem, Denoted, Depth;
    var i := GeneratesItem(k, s, depth);
    var t := Skip(Parse(k, Skip(s), depth).value.rest);
    if At(t, 44) {
      var more := GeneratesItems(k, t[1..], depth);
      items := [i] + more;
      assert items[1..] == more && t == [44] + t[1..];
      Regroup(SpellItem(i), [44], SpellItems(more), [93] + ParseItems(k, s, depth).value.rest);
    } else {
      items := [i];
      assert t == [93] + t[1..] && SpellItems(items) == SpellItem(i);
    }
  }

  lemma {:induction false} GeneratesPairs<N(!new)>(k: Codec<N>, s: seq<byte>, depth: nat) returns (pairs: seq<Pair<N>>)
    requires Local(k) && depth <= 1000 && ParseMembers(k, s, depth).Some?
    ensures var r := ParseMembers(k, s, depth).value;
            && pairs != [] && PairsFollow(k, pairs, false) && DenotedPairs(pairs) == r.value
            && s == SpellPairs(pairs) + ([125] + r.rest) && depth + MembersDepth(r.value) <= 1000
    decreases |s|, 3
  {
    hide Local, Parse, Skip, ItemFollows, SpellItem, Denoted, Depth, ParseName, StringToken, Blanks;
    var name := ParseName(s).value;
    var before, raw, mid := NameSplits(s);
    var i := GeneratesItem(k, name.rest, depth);
    var t := Skip(Parse(k, Skip(name.rest), depth).value.rest);
    var p := Pair(before, raw, name.value, mid, i);
    assert s == SpellPair(p, t);
    hide SpellPair;
    if At(t, 44) {
      var more := GeneratesPairs(k, t[1..], depth);
      var end := [125] + ParseMembers(k, s, depth).value.rest;
      pairs := [p] + more;
      assert pairs[1..] == more && t == [44] + (SpellPairs(more) + end);
      Assoc([44], SpellPairs(more), end);
      PairMore(p, [44] + SpellPairs(more), end);
    } else {
      pairs := [p];
      assert t == [125] + t[1..] && [] + t == t;
      PairMore(p, [], t);
    }
  }
}
