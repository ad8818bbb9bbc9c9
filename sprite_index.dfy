/**
 * The sprite-index record: a 4-byte sprite id on the wire. Its children
 * (real-sprite images by zoom level, or one sound effect) live in a map
 * from sprite id to the children in arrival order, outside the record;
 * printing looks them up there, and parsing reads them from the text.
 */
module SpriteIndex {
  import opened Wrappers
  import opened ByteCodec
  import opened Text
  import opened Tokens

  /** The sprite id `read` takes from the first four payload bytes. */
  function DecodeId(b: seq<bv8>): (r: Option<bv32>)
    ensures r.Some? <==> |b| >= 4
  {
    if |b| < 4 then None else Some(Uint32Of(b[..4]))
  }

  /** The payload `write` emits. */
  function EncodeId(id: bv32): (b: seq<bv8>)
    ensures |b| == 4
  {
    Uint32Bytes(id)
  }

  /** read(write(r)) == r, whatever follows the record. */
  lemma DecodeEncodeId(id: bv32, rest: seq<bv8>)
    ensures DecodeId(EncodeId(id) + rest) == Some(id)
  {
    assert (EncodeId(id) + rest)[..4] == EncodeId(id);
    Uint32OfBytes(id);
  }

  /** write(read(b)) reproduces the four bytes read consumed. */
  lemma EncodeDecodeId(b: seq<bv8>)
    requires |b| >= 4
    ensures EncodeId(DecodeId(b).value) == b[..4]
  {
    Uint32BytesOf(b[..4]);
  }

  /** The children printed at indent `indent`, one after another in stored order. */
  function PrintChildren<C>(children: seq<C>, printChild: (C, nat) -> string, indent: nat): string
  {
    if children == [] then ""
    else PrintChildren(children[..|children| - 1], printChild, indent) + printChild(children[|children| - 1], indent)
  }

  /** Printing a concatenation of child lists prints the first list, then the second. */
  lemma {:induction false} PrintChildrenAppend<C>(a: seq<C>, b: seq<C>, printChild: (C, nat) -> string, indent: nat)
    ensures PrintChildren(a + b, printChild, indent)
            == PrintChildren(a, printChild, indent) + PrintChildren(b, printChild, indent)
  {
    if b == [] {
      assert a + b == a;
    } else {
      var b' := b[..|b| - 1];
      assert (a + b)[..|a + b| - 1] == a + b';
      PrintChildrenAppend(a, b', printChild, indent);
    }
  }

  /**
   * Every child is printed exactly once, in stored order: the children
   * before it, then the child itself, then the children after it.
   */
  lemma PrintChildrenAt<C>(children: seq<C>, k: nat, printChild: (C, nat) -> string, indent: nat)
    requires k < |children|
    ensures PrintChildren(children, printChild, indent)
            == PrintChildren(children[..k], printChild, indent)
               + printChild(children[k], indent)
               + PrintChildren(children[k + 1..], printChild, indent)
  {
    assert children == children[..k] + [children[k]] + children[k + 1..];
    PrintChildrenAppend(children[..k] + [children[k]], children[k + 1..], printChild, indent);
    PrintChildrenAppend(children[..k], [children[k]], printChild, indent);
    assert PrintChildren([children[k]], printChild, indent) == printChild(children[k], indent) by {
      assert [children[k]][..0] == [];
    }
  }

  /** Printing one more child appends that child's text. */
  lemma PrintChildrenSnoc<C>(children: seq<C>, k: nat, printChild: (C, nat) -> string, indent: nat)
    requires k < |children|
    ensures PrintChildren(children[..k + 1], printChild, indent)
            == PrintChildren(children[..k], printChild, indent) + printChild(children[k], indent)
  {
    assert children[..k + 1][..k] == children[..k];
  }

  lemma Assoc(a: string, b: string, c: string)
    ensures a + b + c == a + (b + c)
  {
  }

  /** The `sprite_id: <hex id>` line and the opening brace. */
  function Header(id: bv32, indent: nat): string
  {
    Pad(indent) + "sprite_id: " + Hex32(id) + "\n" + Pad(indent) + "{" + "\n"
  }

  function Footer(indent: nat): string
  {
    Pad(indent) + "}" + "\n"
  }

  /**
   * print: the header, the children the map holds for this record's own id
   * at indent + 4 (nothing when the map has no entry), and the closing brace.
   */
  function PrintIndex<C>(id: bv32, sprites: map<bv32, seq<C>>, printChild: (C, nat) -> string, indent: nat)
    : (s: string)
    ensures |s| >= |Header(id, indent)| + |Footer(indent)|
    ensures s[..|Header(id, indent)|] == Header(id, indent)
    ensures s[|s| - |Footer(indent)|..] == Footer(indent)
  {
    var h := Header(id, indent);
    var f := Footer(indent);
    var s := h + (if id in sprites then PrintChildren(sprites[id], printChild, indent + 4) else "") + f;
    assert s[..|h|] == h;
    assert s[|s| - |f|..] == f;
    s
  }

  /** With no entry for the id, nothing is printed between the braces. */
  lemma PrintIndexMissing<C>(id: bv32, sprites: map<bv32, seq<C>>, printChild: (C, nat) -> string, indent: nat)
    requires id !in sprites
    ensures PrintIndex(id, sprites, printChild, indent) == Header(id, indent) + Footer(indent)
  {
  }

  /** Only the entry keyed by the record's own id matters. */
  lemma PrintIndexReadsOwnEntry<C>(id: bv32, s1: map<bv32, seq<C>>, s2: map<bv32, seq<C>>,
                                   printChild: (C, nat) -> string, indent: nat)
    requires id in s1 <==> id in s2
    requires id in s1 ==> s1[id] == s2[id]
    ensures PrintIndex(id, s1, printChild, indent) == PrintIndex(id, s2, printChild, indent)
  {
  }

  /** Regrouping a header of seven pieces around its third piece. */
  lemma RegroupAround(a: string, b: string, c: string, d: string, e: string, f: string, g: string)
    ensures a + b + c + d + e + f + g == (a + b) + (c + (d + e + f + g))
  {
  }

  /** The printed id line reads back as the record's id. */
  lemma HeaderIdReadsBack(id: bv32, indent: nat)
    ensures DropPrefix(Header(id, indent), Pad(indent) + "sprite_id: ").Some?
    ensures ReadHex(DropPrefix(Header(id, indent), Pad(indent) + "sprite_id: ").value[..10], 8) == Some(id as nat)
  {
    var h := Hex32(id);
    var tail := "\n" + Pad(indent) + "{" + "\n";
    RegroupAround(Pad(indent), "sprite_id: ", h, "\n", Pad(indent), "{", "\n");
    DropPrefixOf(Pad(indent) + "sprite_id: ", h + tail);
    assert (h + tail)[..|h|] == h;
    Pow16Values();
    ReadHexOfHex(id as nat, 8);
  }

  /** The id line of the printed record reads back as the record's id. */
  lemma PrintedIdReadsBack<C>(id: bv32, sprites: map<bv32, seq<C>>, printChild: (C, nat) -> string, indent: nat)
    ensures DropPrefix(PrintIndex(id, sprites, printChild, indent), Pad(indent) + "sprite_id: ").Some?
    ensures ReadHex(DropPrefix(PrintIndex(id, sprites, printChild, indent), Pad(indent) + "sprite_id: ").value[..10], 8)
            == Some(id as nat)
  {
    var s := PrintIndex(id, sprites, printChild, indent);
    var hd := Header(id, indent);
    var lead := Pad(indent) + "sprite_id: ";
    HeaderIdReadsBack(id, indent);
    assert |lead| + 10 <= |hd| <= |s|;
    assert s[..|hd|] == hd;
    assert s[..|lead|] == hd[..|lead|];
    assert s[|lead|..][..10] == hd[|lead|..][..10];
  }

  /** The kind of child record a lookahead token announces. */
  datatype ChildKind = RealSprite(spriteId: bv32) | SoundEffect

  /** `[` opens a real-sprite image carrying the index's id; any other token a sound effect. */
  function LookaheadKind(t: Token, id: bv32): (k: ChildKind)
    ensures k.RealSprite? <==> t == OpenBracket
    ensures k.RealSprite? ==> k.spriteId == id
  {
    if t == OpenBracket then RealSprite(id) else SoundEffect
  }

  /** A child record's parse: the child and how many tokens it consumed. */
  datatype ChildParse<C> = ChildParse(child: C, consumed: nat)

  /** The parsers of the child records, which are outside this model. */
  type ChildParser<C> = (ChildKind, seq<Token>) -> Result<ChildParse<C>, ParseError>

  /** A child parser that succeeds consumes at least one of the tokens it was given. */
  ghost predicate Advances<C>(parseChild: ChildParser<C>)
  {
    forall k, ts :: parseChild(k, ts).Success? ==> 0 < parseChild(k, ts).value.consumed <= |ts|
  }

  /** A parsed child, with the token positions it spans. */
  datatype ParsedChild<C> = ParsedChild(kind: ChildKind, child: C, start: nat, end: nat)

  /** `c` is the child that the lookahead at c.start selects and that parses from c.start to c.end. */
  ghost predicate ChildAt<C>(ts: seq<Token>, id: bv32, parseChild: ChildParser<C>, c: ParsedChild<C>)
  {
    && c.start < c.end <= |ts|
    && ts[c.start] != CloseBrace
    && c.kind == LookaheadKind(ts[c.start], id)
    && parseChild(c.kind, ts[c.start..]) == Success(ChildParse(c.child, c.end - c.start))
  }

  /** The children follow one another without gaps from token `from` to token `to`. */
  ghost predicate Chain<C>(ts: seq<Token>, id: bv32, parseChild: ChildParser<C>,
                           cs: seq<ParsedChild<C>>, from: nat, to: nat)
  {
    && (|cs| == 0 ==> from == to)
    && (|cs| > 0 ==> cs[0].start == from && cs[|cs| - 1].end == to)
    && (forall k :: 0 <= k < |cs| - 1 ==> cs[k].end == cs[k + 1].start)
    && (forall k :: 0 <= k < |cs| ==> ChildAt(ts, id, parseChild, cs[k]))
  }

  /**
   * The child loop from token `pos`: stop at `}`, otherwise parse the child
   * the lookahead selects and go on after it. `acc` holds the children parsed so far.
   */
  function ParseChildren<C>(ts: seq<Token>, pos: nat, id: bv32, parseChild: ChildParser<C>,
                            acc: seq<ParsedChild<C>>): (r: Result<(seq<ParsedChild<C>>, nat), ParseError>)
    requires pos <= |ts| && Advances(parseChild)
    ensures r.Success? ==> pos <= r.value.1 < |ts| && ts[r.value.1] == CloseBrace
    decreases |ts| - pos
  {
    var t := PeekAt(ts, pos);
    if t == CloseBrace then Success((acc, pos))
    else
      var kind := LookaheadKind(t, id);
      match parseChild(kind, ts[pos..])
      case Failure(e) => Failure(e)
      case Success(p) =>
        ParseChildren(ts, pos + p.consumed, id, parseChild, acc + [ParsedChild(kind, p.child, pos, pos + p.consumed)])
  }

  /** The child loop stops at `}` with the children parsed so far. */
  lemma ParseChildrenStop<C>(ts: seq<Token>, pos: nat, id: bv32, parseChild: ChildParser<C>, acc: seq<ParsedChild<C>>)
    requires pos <= |ts| && Advances(parseChild)
    requires PeekAt(ts, pos) == CloseBrace
    ensures ParseChildren(ts, pos, id, parseChild, acc) == Success((acc, pos))
  {
  }

  /** A child that fails to parse ends the loop with the child's error. */
  lemma ParseChildrenFail<C>(ts: seq<Token>, pos: nat, id: bv32, parseChild: ChildParser<C>, acc: seq<ParsedChild<C>>,
                             e: ParseError)
    requires pos <= |ts| && Advances(parseChild)
    requires PeekAt(ts, pos) != CloseBrace
    requires parseChild(LookaheadKind(PeekAt(ts, pos), id), ts[pos..]) == Failure(e)
    ensures ParseChildren(ts, pos, id, parseChild, acc) == Failure(e)
  {
  }

  /** A child that parses moves the loop past it and joins the children. */
  lemma ParseChildrenAdvance<C>(ts: seq<Token>, pos: nat, id: bv32, parseChild: ChildParser<C>, acc: seq<ParsedChild<C>>,
                                kind: ChildKind, p: ChildParse<C>)
    requires pos <= |ts| && Advances(parseChild)
    requires PeekAt(ts, pos) != CloseBrace && kind == LookaheadKind(PeekAt(ts, pos), id)
    requires parseChild(kind, ts[pos..]) == Success(p)
    ensures pos + p.consumed <= |ts|
    ensures ParseChildren(ts, pos, id, parseChild, acc)
            == ParseChildren(ts, pos + p.consumed, id, parseChild, acc + [ParsedChild(kind, p.child, pos, pos + p.consumed)])
  {
  }

  /** A parsed index: its id, its children, and the position just after its closing `}`. */
  datatype ParsedIndex<C> = ParsedIndex(spriteId: bv32, children: seq<ParsedChild<C>>, end: nat)

  /** parse from token `start`: `sprite_id`, `:`, an integer, `{`, the children, `}`. */
  function ParseIndex<C>(ts: seq<Token>, start: nat, parseChild: ChildParser<C>): (r: Result<ParsedIndex<C>, ParseError>)
    requires start <= |ts| && Advances(parseChild)
    ensures r.Success? ==> start + 5 <= r.value.end <= |ts| && ts[r.value.end - 1] == CloseBrace
  {
    if PeekAt(ts, start) != Ident("sprite_id") then Failure(Unexpected(Expect(Ident("sprite_id")), PeekAt(ts, start)))
    else if PeekAt(ts, start + 1) != Colon then Failure(Unexpected(Expect(Colon), PeekAt(ts, start + 1)))
    else if !PeekAt(ts, start + 2).Integer? then Failure(Unexpected(ExpectInteger, PeekAt(ts, start + 2)))
    else if PeekAt(ts, start + 3) != OpenBrace then Failure(Unexpected(Expect(OpenBrace), PeekAt(ts, start + 3)))
    else
      var id := ts[start + 2].value;
      Close(id, ParseChildren(ts, start + 4, id, parseChild, []))
  }

  /** The index once the child loop has stopped at `}`: the position after that brace ends it. */
  function Close<C>(id: bv32, children: Result<(seq<ParsedChild<C>>, nat), ParseError>): Result<ParsedIndex<C>, ParseError>
  {
    match children
    case Failure(e) => Failure(e)
    case Success((cs, close)) => Success(ParsedIndex(id, cs, close + 1))
  }

  /** A chain extended by a child that starts where it ends is a chain up to that child's end. */
  lemma ChainSnoc<C>(ts: seq<Token>, id: bv32, parseChild: ChildParser<C>,
                     acc: seq<ParsedChild<C>>, c: ParsedChild<C>, from: nat)
    requires Chain(ts, id, parseChild, acc, from, c.start)
    requires ChildAt(ts, id, parseChild, c)
    ensures Chain(ts, id, parseChild, acc + [c], from, c.end)
  {
    var acc' := acc + [c];
    forall k | 0 <= k < |acc'|
      ensures ChildAt(ts, id, parseChild, acc'[k])
    {
      if k < |acc| { assert acc'[k] == acc[k]; }
    }
  }

  lemma {:induction false} ParseChildrenChain<C>(ts: seq<Token>, pos: nat, id: bv32, parseChild: ChildParser<C>,
                                                 acc: seq<ParsedChild<C>>, from: nat)
    requires pos <= |ts| && Advances(parseChild)
    requires Chain(ts, id, parseChild, acc, from, pos)
    requires ParseChildren(ts, pos, id, parseChild, acc).Success?
    ensures Chain(ts, id, parseChild, ParseChildren(ts, pos, id, parseChild, acc).value.0, from,
                  ParseChildren(ts, pos, id, parseChild, acc).value.1)
    decreases |ts| - pos
  {
    var t := PeekAt(ts, pos);
    if t != CloseBrace {
      var kind := LookaheadKind(t, id);
      var p := parseChild(kind, ts[pos..]).value;
      ParseChildrenAdvance(ts, pos, id, parseChild, acc, kind, p);
      var c := ParsedChild(kind, p.child, pos, pos + p.consumed);
      assert ChildAt(ts, id, parseChild, c);
      ChainSnoc(ts, id, parseChild, acc, c, from);
      ParseChildrenChain(ts, pos + p.consumed, id, parseChild, acc + [c], from);
    } else {
      ParseChildrenStop(ts, pos, id, parseChild, acc);
    }
  }

  /** A non-empty chain is its first child followed by a chain from that child's end. */
  lemma ChainTail<C>(ts: seq<Token>, id: bv32, parseChild: ChildParser<C>,
                     cs: seq<ParsedChild<C>>, from: nat, to: nat)
    requires |cs| > 0 && Chain(ts, id, parseChild, cs, from, to)
    ensures cs[0].start == from && ChildAt(ts, id, parseChild, cs[0])
    ensures Chain(ts, id, parseChild, cs[1..], cs[0].end, to)
  {
    var rest := cs[1..];
    forall k | 0 <= k < |rest|
      ensures ChildAt(ts, id, parseChild, rest[k])
    {
      assert rest[k] == cs[k + 1];
    }
    forall k | 0 <= k < |rest| - 1
      ensures rest[k].end == rest[k + 1].start
    {
      assert rest[k] == cs[k + 1] && rest[k + 1] == cs[k + 2];
    }
  }

  /** At a child's first token, the child loop takes that child and goes on from its end. */
  lemma ParseChildrenTakes<C>(ts: seq<Token>, id: bv32, parseChild: ChildParser<C>,
                              acc: seq<ParsedChild<C>>, c: ParsedChild<C>)
    requires Advances(parseChild) && ChildAt(ts, id, parseChild, c)
    ensures ParseChildren(ts, c.start, id, parseChild, acc) == ParseChildren(ts, c.end, id, parseChild, acc + [c])
  {
    assert PeekAt(ts, c.start) == ts[c.start];
    ParseChildrenAdvance(ts, c.start, id, parseChild, acc, c.kind, ChildParse(c.child, c.end - c.start));
    assert ParsedChild(c.kind, c.child, c.start, c.start + (c.end - c.start)) == c;
  }

  /** A chain of children followed by `}` is what the child loop collects, after the children it already has. */
  lemma {:induction false} ParseChildrenComplete<C>(ts: seq<Token>, pos: nat, id: bv32, parseChild: ChildParser<C>,
                                                    acc: seq<ParsedChild<C>>, cs: seq<ParsedChild<C>>, close: nat)
    requires pos <= |ts| && Advances(parseChild)
    requires Chain(ts, id, parseChild, cs, pos, close)
    requires close < |ts| && ts[close] == CloseBrace
    ensures ParseChildren(ts, pos, id, parseChild, acc) == Success((acc + cs, close))
    decreases |cs|
  {
    if cs == [] {
      assert acc + cs == acc;
      ParseChildrenStop(ts, pos, id, parseChild, acc);
    } else {
      var c, rest := cs[0], cs[1..];
      ChainTail(ts, id, parseChild, cs, pos, close);
      ParseChildrenTakes(ts, id, parseChild, acc, c);
      ParseChildrenComplete(ts, c.end, id, parseChild, acc + [c], rest, close);
      assert acc + [c] + rest == acc + cs;
    }
  }

  /** Past the four opening tokens, a child loop that stops at `}` completes the parse. */
  lemma ParseIndexOpens<C>(ts: seq<Token>, start: nat, parseChild: ChildParser<C>,
                           v: bv32, cs: seq<ParsedChild<C>>, close: nat)
    requires start + 4 <= |ts| && Advances(parseChild)
    requires ts[start..start + 4] == [Ident("sprite_id"), Colon, Integer(v), OpenBrace]
    requires ParseChildren(ts, start + 4, v, parseChild, []) == Success((cs, close))
    ensures ParseIndex(ts, start, parseChild) == Success(ParsedIndex(v, cs, close + 1))
  {
    assert ts[start] == Ident("sprite_id") && ts[start + 1] == Colon;
    assert ts[start + 2] == Integer(v) && ts[start + 3] == OpenBrace;
  }

  /**
   * The converse of ParseIndexAccepts: `sprite_id`, `:`, an integer, `{`,
   * a chain of children and `}` parse, with the integer as the id.
   */
  lemma ParseIndexComplete<C>(ts: seq<Token>, start: nat, parseChild: ChildParser<C>,
                              v: bv32, cs: seq<ParsedChild<C>>, close: nat)
    requires start + 4 <= |ts| && Advances(parseChild)
    requires ts[start..start + 4] == [Ident("sprite_id"), Colon, Integer(v), OpenBrace]
    requires Chain(ts, v, parseChild, cs, start + 4, close)
    requires close < |ts| && ts[close] == CloseBrace
    ensures ParseIndex(ts, start, parseChild) == Success(ParsedIndex(v, cs, close + 1))
  {
    ParseChildrenComplete(ts, start + 4, v, parseChild, [], cs, close);
    assert [] + cs == cs;
    ParseIndexOpens(ts, start, parseChild, v, cs, close);
  }

  /**
   * What a successful parse accepted: the four opening tokens, the id taken
   * from the integer, children that each start at a token other than `}`,
   * are of the kind their first token selects and follow one another from
   * the token after `{`, and the closing `}` as the last token consumed.
   */
  lemma ParseIndexAccepts<C>(ts: seq<Token>, start: nat, parseChild: ChildParser<C>)
    requires start <= |ts| && Advances(parseChild)
    requires ParseIndex(ts, start, parseChild).Success?
    ensures var p := ParseIndex(ts, start, parseChild).value;
            && start + 5 <= p.end <= |ts|
            && ts[start..start + 4] == [Ident("sprite_id"), Colon, Integer(p.spriteId), OpenBrace]
            && ts[p.end - 1] == CloseBrace
            && Chain(ts, p.spriteId, parseChild, p.children, start + 4, p.end - 1)
  {
    var id := ts[start + 2].value;
    ParseChildrenChain(ts, start + 4, id, parseChild, [], start + 4);
  }

  /**
   * The child loop of parse, from the token after `{` up to the closing `}`,
   * which it leaves unread: each child is parsed by the parser its lookahead
   * token selects and appended to the list.
   */
  method ReadChildren<C>(ts: TokenStream, id: bv32, parseChild: ChildParser<C>)
    returns (err: Option<ParseError>, spriteList: seq<C>)
    requires ts.Valid() && Advances(parseChild)
    modifies ts
    ensures ts.Valid()
    ensures var r := ParseChildren(ts.tokens, old(ts.pos), id, parseChild, []);
            && (err.None? <==> r.Success?)
            && (r.Success? ==> && ts.pos == r.value.1
                               && |spriteList| == |r.value.0|
                               && forall k :: 0 <= k < |spriteList| ==> spriteList[k] == r.value.0[k].child)
            && (r.Failure? ==> err == Some(r.error))
  {
    spriteList := [];
    ghost var acc: seq<ParsedChild<C>> := [];
    ghost var spec := ParseChildren(ts.tokens, ts.pos, id, parseChild, []);
    while ts.Peek() != CloseBrace
      invariant ts.Valid()
      invariant |spriteList| == |acc| && forall k :: 0 <= k < |acc| ==> spriteList[k] == acc[k].child
      invariant spec == ParseChildren(ts.tokens, ts.pos, id, parseChild, acc)
      decreases |ts.tokens| - ts.pos
    {
      var kind := LookaheadKind(ts.Peek(), id);
      var parsed := parseChild(kind, ts.tokens[ts.pos..]);
      if parsed.Failure? {
        ParseChildrenFail(ts.tokens, ts.pos, id, parseChild, acc, parsed.error);
        return Some(parsed.error), spriteList;
      }
      ParseChildrenAdvance(ts.tokens, ts.pos, id, parseChild, acc, kind, parsed.value);
      spriteList := spriteList + [parsed.value.child];
      acc := acc + [ParsedChild(kind, parsed.value.child, ts.pos, ts.pos + parsed.value.consumed)];
      ts.Skip(parsed.value.consumed);
    }
    ParseChildrenStop(ts.tokens, ts.pos, id, parseChild, acc);
    err := None;
  }

  /** The mutable record: the sprite id is its only state. */
  class SpriteIndexRecord {
    var spriteId: bv32

    constructor (id: bv32)
      ensures spriteId == id
    {
      spriteId := id;
    }

    /** read: four bytes into the sprite id; fails when fewer remain. */
    method Read(reader: ByteReader) returns (ok: bool)
      requires reader.Valid()
      modifies this, reader
      ensures reader.Valid()
      ensures ok == DecodeId(old(reader.Unread())).Some?
      ensures ok ==> spriteId == DecodeId(old(reader.Unread())).value && reader.pos == old(reader.pos) + 4
      ensures !ok ==> spriteId == old(spriteId) && reader.pos == old(reader.pos)
    {
      var r := reader.ReadUint32();
      if r.None? {
        return false;
      }
      spriteId := r.value;
      ok := true;
    }

    /** write: the four bytes of the sprite id. */
    method Write(writer: ByteWriter)
      modifies writer
      ensures writer.bytes == old(writer.bytes) + EncodeId(spriteId)
    {
      writer.WriteUint32(spriteId);
    }

    /** print: writes the header, each child of this id's map entry in order, and the closing brace. */
    method Print<C>(sprites: map<bv32, seq<C>>, printChild: (C, nat) -> string, indent: nat) returns (s: string)
      ensures s == PrintIndex(spriteId, sprites, printChild, indent)
    {
      s := Header(spriteId, indent);
      ghost var head := s;
      if spriteId in sprites {
        var spriteList := sprites[spriteId];
        for k := 0 to |spriteList|
          invariant s == head + PrintChildren(spriteList[..k], printChild, indent + 4)
        {
          PrintChildrenSnoc(spriteList, k, printChild, indent + 4);
          Assoc(head, PrintChildren(spriteList[..k], printChild, indent + 4), printChild(spriteList[k], indent + 4));
          s := s + printChild(spriteList[k], indent + 4);
        }
        assert spriteList[..|spriteList|] == spriteList;
      }
      s := s + Footer(indent);
    }

    /**
     * parse: `sprite_id`, `:`, an integer that becomes the sprite id, `{`,
     * children until `}`, then `}`. The children are kept in a local list
     * that is dropped at the end; no map is touched.
     */
    method Parse<C>(ts: TokenStream, parseChild: ChildParser<C>) returns (err: Option<ParseError>)
      requires ts.Valid() && Advances(parseChild)
      modifies this, ts
      ensures ts.Valid()
      ensures var p := ParseIndex(ts.tokens, old(ts.pos), parseChild);
              && (err.None? <==> p.Success?)
              && (p.Success? ==> spriteId == p.value.spriteId && ts.pos == p.value.end)
              && (p.Failure? ==> err == Some(p.error))
    {
      ghost var start := ts.pos;
      err := ts.Match(Ident("sprite_id"));
      if err.Some? { return; }
      assert PeekAt(ts.tokens, start) == Ident("sprite_id") && ts.pos == start + 1;
      err := ts.Match(Colon);
      if err.Some? { return; }
      assert PeekAt(ts.tokens, start + 1) == Colon && ts.pos == start + 2;
      var id := ts.MatchInteger();
      if id.Failure? { return Some(id.error); }
      assert PeekAt(ts.tokens, start + 2) == Integer(id.value) && ts.pos == start + 3;
      spriteId := id.value;

      err := ts.Match(OpenBrace);
      if err.Some? { return; }
      assert PeekAt(ts.tokens, start + 3) == OpenBrace && ts.pos == start + 4;

      var spriteList;
      err, spriteList := ReadChildren(ts, spriteId, parseChild);
      if err.Some? { return; }
      err := ts.Match(CloseBrace);
      assert err.None?;
    }
  }
}
