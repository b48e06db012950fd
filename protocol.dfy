/** The websocket wire protocol of src/protocol.js: `parseWSPacket`, which
    turns one raw chunk into the packets it carries, and `formatWSPacket`,
    which wraps one packet into a length-prefixed frame.

    The JSON codec is a parameter: `parse` stands for `JSON.parse` (None
    where it throws) and `stringify` for `JSON.stringify`. */
module Protocol {
  import opened Json
  import opened Decimal
  import opened Heartbeat
  import opened Splitter

  // ---------------------------------------------------------------------
  // Inbound: parseWSPacket
  // ---------------------------------------------------------------------

  /** The `.map` callback: an empty piece becomes `false` without reaching
      the parser; a piece the parser rejects becomes `false`; a piece that
      parses to `null` also becomes `false`, because reading `parsed.m`
      throws a TypeError that the same `catch` turns into `false`; any
      other parse result is passed on as it is. */
  function DecodePiece(p: string, parse: Parser): (v: Value)
    ensures Truthy(v) <==> p != [] && parse(p).Some? && Truthy(parse(p).value)
    ensures Truthy(v) ==> parse(p) == Some(v)
  {
    if p == [] then JBool(false)
    else match parse(p)
      case None => JBool(false)
      case Some(parsed) => if parsed.JNull? then JBool(false) else parsed
  }

  /** `.filter((p) => p)`: the truthy values, in their original order. */
  function KeepTruthy(vs: seq<Value>): (r: seq<Value>)
    ensures |r| <= |vs|
    ensures forall k | 0 <= k < |r| :: Truthy(r[k])
    ensures forall v :: v in r <==> v in vs && Truthy(v)
  {
    if vs == [] then []
    else (if Truthy(vs[0]) then [vs[0]] else []) + KeepTruthy(vs[1..])
  }

  /** The map step over all tokens. */
  function DecodeAll(tokens: seq<string>, parse: Parser): (vs: seq<Value>)
    ensures |vs| == |tokens|
    ensures forall k | 0 <= k < |tokens| :: vs[k] == DecodePiece(tokens[k], parse)
  {
    if tokens == [] then []
    else [DecodePiece(tokens[0], parse)] + DecodeAll(tokens[1..], parse)
  }

  lemma {:induction false} DecodeAllAppend(a: seq<string>, b: seq<string>, parse: Parser)
    ensures DecodeAll(a + b, parse) == DecodeAll(a, parse) + DecodeAll(b, parse)
  {
    if a == [] {
      assert a + b == b;
    } else {
      assert (a + b)[0] == a[0];
      assert (a + b)[1..] == a[1..] + b;
      DecodeAllAppend(a[1..], b, parse);
    }
  }

  /** Map then filter: the packets decoded from a sequence of tokens. */
  function DecodeTokens(tokens: seq<string>, parse: Parser): (packets: seq<Value>)
    ensures |packets| <= |tokens|
    ensures forall k | 0 <= k < |packets| :: Truthy(packets[k])
  {
    KeepTruthy(DecodeAll(tokens, parse))
  }

  /** parseWSPacket: strip heartbeats, split on delimiters, decode each piece,
      drop every falsy result. Defined for every string: it never fails. */
  function ParseWSPacket(str: string, parse: Parser): (packets: seq<Value>)
    ensures |packets| <= |Tokenize(Strip(str))|
    ensures forall k | 0 <= k < |packets| :: Truthy(packets[k])
  {
    DecodeTokens(Tokenize(Strip(str)), parse)
  }

  /** A token is accepted, as `v`, when it is non-empty and parses to the truthy `v`. */
  predicate Accepts(token: string, v: Value, parse: Parser) {
    token != [] && parse(token) == Some(v) && Truthy(v)
  }

  /** Filtering distributes over concatenation. */
  lemma {:induction false} KeepTruthyAppend(a: seq<Value>, b: seq<Value>)
    ensures KeepTruthy(a + b) == KeepTruthy(a) + KeepTruthy(b)
  {
    if a == [] {
      assert a + b == b;
    } else {
      assert (a + b)[0] == a[0];
      assert (a + b)[1..] == a[1..] + b;
      KeepTruthyAppend(a[1..], b);
    }
  }

  /** Decoding is piecewise: the packets of `a + b` are those of `a`
      followed by those of `b`. Order is kept and no token affects another. */
  lemma {:induction false} DecodeTokensAppend(a: seq<string>, b: seq<string>, parse: Parser)
    ensures DecodeTokens(a + b, parse) == DecodeTokens(a, parse) + DecodeTokens(b, parse)
  {
    DecodeAllAppend(a, b, parse);
    KeepTruthyAppend(DecodeAll(a, parse), DecodeAll(b, parse));
  }

  /** One token yields at most one packet, and yields `v` exactly when it accepts `v`. */
  lemma {:induction false} DecodeOneToken(token: string, v: Value, parse: Parser)
    ensures |DecodeTokens([token], parse)| <= 1
    ensures DecodeTokens([token], parse) == [v] <==> Accepts(token, v, parse)
    ensures DecodeTokens([token], parse) == [] <==> forall w :: !Accepts(token, w, parse)
  {
    var d := DecodePiece(token, parse);
    assert DecodeAll([token], parse) == [d] + DecodeAll([], parse);
    assert KeepTruthy([d]) == (if Truthy(d) then [d] else []) + KeepTruthy([]);
    if Truthy(d) {
      assert DecodeTokens([token], parse) == [d];
      assert Accepts(token, d, parse);
      assert Accepts(token, v, parse) ==> v == d;
    } else {
      assert DecodeTokens([token], parse) == [];
    }
  }

  /** A packet is in the output exactly when some token accepts it. */
  lemma {:induction false} DecodeTokensMembers(tokens: seq<string>, v: Value, parse: Parser)
    ensures v in DecodeTokens(tokens, parse) <==>
            exists k | 0 <= k < |tokens| :: Accepts(tokens[k], v, parse)
  {
    var vs := DecodeAll(tokens, parse);
    if v in KeepTruthy(vs) {
      var k :| 0 <= k < |vs| && vs[k] == v;
      assert Accepts(tokens[k], v, parse);
    }
    if exists k | 0 <= k < |tokens| :: Accepts(tokens[k], v, parse) {
      var k :| 0 <= k < |tokens| && Accepts(tokens[k], v, parse);
      assert vs[k] == v;
    }
  }

  /** A token that is empty, does not parse, or parses to a falsy value
      is dropped without removing or reordering any other packet. */
  lemma {:induction false} DroppedTokenIsolated(a: seq<string>, bad: string, b: seq<string>, parse: Parser)
    requires forall w :: !Accepts(bad, w, parse)
    ensures DecodeTokens(a + [bad] + b, parse) == DecodeTokens(a, parse) + DecodeTokens(b, parse)
  {
    DecodeOneToken(bad, JNull, parse);
    DecodeTokensAppend(a + [bad], b, parse);
    DecodeTokensAppend(a, [bad], parse);
    assert DecodeTokens(a + [bad], parse) == DecodeTokens(a, parse);
  }

  lemma {:induction false} DecodeTokensAcceptedStep(tokens: seq<string>, vs: seq<Value>, parse: Parser)
    requires |tokens| == |vs| && tokens != [] && Accepts(tokens[0], vs[0], parse)
    requires DecodeTokens(tokens[1..], parse) == vs[1..]
    ensures DecodeTokens(tokens, parse) == vs
  {
    DecodeTokensAppend([tokens[0]], tokens[1..], parse);
    assert [tokens[0]] + tokens[1..] == tokens;
    DecodeOneToken(tokens[0], vs[0], parse);
    assert vs == [vs[0]] + vs[1..];
  }

  /** When every token is accepted, the output is exactly the parsed values, in order. */
  lemma {:induction false} DecodeTokensAllAccepted(tokens: seq<string>, vs: seq<Value>, parse: Parser)
    requires |tokens| == |vs|
    requires forall k | 0 <= k < |tokens| :: Accepts(tokens[k], vs[k], parse)
    ensures DecodeTokens(tokens, parse) == vs
  {
    if tokens != [] {
      assert Accepts(tokens[0], vs[0], parse);
      DecodeTokensAllAccepted(tokens[1..], vs[1..], parse);
      DecodeTokensAcceptedStep(tokens, vs, parse);
    }
  }

  /** Empty pieces never reach the parser: two parsers that agree on every
      non-empty string give the same packets for every chunk. */
  lemma {:induction false} EmptyPiecesNotParsed(str: string, parse1: Parser, parse2: Parser)
    requires forall p | p != [] :: parse1(p) == parse2(p)
    ensures ParseWSPacket(str, parse1) == ParseWSPacket(str, parse2)
  {
    var tokens := Tokenize(Strip(str));
    assert DecodeAll(tokens, parse1) == DecodeAll(tokens, parse2);
  }

  /** A chunk of heartbeats only, the empty chunk included, carries no packet. */
  lemma {:induction false} HeartbeatsOnly(n: nat, parse: Parser)
    ensures ParseWSPacket(Markers(n), parse) == []
  {
    StripMarkers(n);
    TokenizeEmpty();
    DecodeOneToken("", JNull, parse);
  }

  // ---------------------------------------------------------------------
  // Outbound: formatWSPacket
  // ---------------------------------------------------------------------

  /** `~m~<ds>~m~` is a delimiter for every non-empty run of digits. */
  lemma {:induction false} NumeralDelim(ds: string)
    requires ds != [] && AllDigits(ds)
    ensures IsDelim("~m~" + ds + "~m~")
  {
    var h := "~m~" + ds + "~m~";
    assert h[3..|h| - 3] == ds;
  }

  /** `~m~<n>~m~`: the frame header declaring a payload of `n` characters. */
  function Header(n: nat): (h: string)
    ensures |h| >= 7 && IsDelim(h)
    ensures Canonical(h[3..|h| - 3]) && Decimal.Value(h[3..|h| - 3]) == n
  {
    var ds := Render(n);
    var h := "~m~" + ds + "~m~";
    assert h[3..|h| - 3] == ds;
    h
  }

  /** What a frame's header declares, and the text after it: the reading
      of `~m~<n>~m~<payload>` that the wire format defines. */
  function Unframe(f: string): Option<(nat, string)>
  {
    match MatchAt(f, 0)
    case None => None
    case Some(n) =>
      MatchAtIsDelim(f, 0, n);
      SliceOfSlice(f, 0, n, 3, n - 3);
      Some((Decimal.Value(f[3..n - 3]), f[n..]))
  }

  /** `msg.length`: JavaScript counts UTF-16 code units, so a character
      outside the Basic Multilingual Plane (a surrogate pair) counts twice. */
  function Utf16Length(s: string): (n: nat)
    ensures |s| <= n <= 2 * |s|
  {
    if s == [] then 0 else (if s[0] as int >= 0x1_0000 then 2 else 1) + Utf16Length(s[1..])
  }

  /** Lengths add up over a concatenation. */
  lemma {:induction false} Utf16LengthAppend(a: string, b: string)
    ensures Utf16Length(a + b) == Utf16Length(a) + Utf16Length(b)
  {
    if a == [] {
      assert a + b == b;
    } else {
      assert (a + b)[0] == a[0];
      assert (a + b)[1..] == a[1..] + b;
      Utf16LengthAppend(a[1..], b);
    }
  }

  /** Within the Basic Multilingual Plane the length is the character count. */
  lemma {:induction false} Utf16LengthBmp(s: string)
    requires forall k | 0 <= k < |s| :: s[k] as int < 0x1_0000
    ensures Utf16Length(s) == |s|
  {
    if s != [] {
      Utf16LengthBmp(s[1..]);
    }
  }

  /** An emoji is one character but two code units: its frame declares 2. */
  lemma AstralLength()
    ensures Utf16Length("\U{1F600}") == 2
    ensures Unframe(Frame("\U{1F600}")) == Some((2, "\U{1F600}"))
  {
  }

  /** The template string of formatWSPacket: header, then the payload.
      The header declares `msg.length` in UTF-16 code units, spelled as
      the canonical numeral. */
  function Frame(msg: string): (frame: string)
    ensures Unframe(frame) == Some((Utf16Length(msg), msg))
  {
    var h := Header(Utf16Length(msg));
    var f := h + msg;
    assert f[0..|h|] == h;
    DelimIsMatchAt(f, 0, |h|);
    assert f[3..|h| - 3] == h[3..|h| - 3];
    assert f[|h|..] == msg;
    f
  }

  /** The argument of formatWSPacket: a string, sent as it is, or a value
      for which `typeof packet === 'object'` holds, serialised first. JSON
      values of that type are objects, arrays and null (`IsObject`); the
      type here admits any `Value`, and `Object(JStr(..))` and the like
      stand for boxed wrapper objects, which `stringify` serialises too. */
  datatype Packet = Text(text: string) | Object(value: Value)

  /** formatWSPacket: whatever the branch, the frame's header declares the
      length of the text behind it, and that text is the message. */
  function FormatWSPacket(packet: Packet, stringify: Serializer): (frame: string)
    ensures packet.Text? ==> Unframe(frame) == Some((Utf16Length(packet.text), packet.text))
    ensures packet.Object? ==> Unframe(frame) == Some((Utf16Length(stringify(packet.value)), stringify(packet.value)))
  {
    var msg := match packet
      case Text(s) => s
      case Object(v) => stringify(v);
    Frame(msg)
  }

  // ---------------------------------------------------------------------
  // Round trips
  // ---------------------------------------------------------------------

  /** The heartbeat pass leaves a `~m~` tag alone unless a marker starts at its last `~`. */
  lemma {:induction false} StripAfterTag(z: string)
    requires !MarkerAt(['~'] + z)
    ensures Strip("~m~" + z) == "~m~" + Strip(z)
  {
    assert !MarkerAt(['m'] + (['~'] + z));
    assert !MarkerAt(['~'] + (['m'] + (['~'] + z)));
    StripKeep('~', ['m'] + (['~'] + z));
    StripKeep('m', ['~'] + z);
    StripKeep('~', z);
    assert "~m~" + z == ['~'] + (['m'] + (['~'] + z));
    assert ['~'] + (['m'] + (['~'] + Strip(z))) == "~m~" + Strip(z);
  }

  /** A frame with a '~'-free payload holds no heartbeat marker. */
  lemma {:induction false} StripFrame(msg: string)
    requires '~' !in msg
    ensures Strip(Frame(msg)) == Frame(msg)
  {
    var ds := Render(Utf16Length(msg));
    assert ds[0] in ds;
    assert Frame(msg) == "~m~" + (ds + ("~m~" + msg));
    StripAfterTag(ds + ("~m~" + msg));
    StripTildeFreePrefix(ds, "~m~" + msg);
    if |msg| >= 2 { assert msg[1] in msg; }
    StripAfterTag(msg);
    StripTildeFreePrefix(msg, []);
    assert msg + [] == msg;
  }

  /** Frames carrying the given payloads, back to back. */
  function Frames(payloads: seq<string>): string
  {
    if payloads == [] then [] else Frame(payloads[0]) + Frames(payloads[1..])
  }

  /** The first frame of a non-empty batch is its header then its payload. */
  lemma FramesCons(payloads: seq<string>)
    requires payloads != []
    ensures Frames(payloads) == Header(Utf16Length(payloads[0])) + (payloads[0] + Frames(payloads[1..]))
  {
    FrameIsHeader(payloads[0]);
  }

  lemma FrameIsHeader(msg: string)
    ensures Frame(msg) == Header(Utf16Length(msg)) + msg
  {
  }

  /** One header and a '~'-free payload in front of a text whose pieces
      are `""` then `ps`: the pieces are `""`, the payload, then `ps`. */
  lemma {:induction false} TokenizeFramesStep(h: string, p: string, rest: string, ps: seq<string>)
    requires IsDelim(h) && '~' !in p
    requires Split(rest).pieces == [""] + ps
    ensures Split(h + (p + rest)).pieces == [""] + ([p] + ps)
  {
    SplitLeadingDelim(h, p + rest);
    TildeFreePrefixSplit(p, rest);
    assert p + "" == p;
    assert ([""] + ps)[1..] == ps;
  }

  /** Tokenizing back-to-back frames with '~'-free payloads gives an empty
      piece (before the first header) and then exactly the payloads. */
  lemma {:induction false} TokenizeFrames(payloads: seq<string>)
    requires forall k | 0 <= k < |payloads| :: '~' !in payloads[k]
    ensures Tokenize(Frames(payloads)) == [""] + payloads
  {
    if payloads == [] {
      TokenizeEmpty();
    } else {
      var p, rest := payloads[0], Frames(payloads[1..]);
      assert payloads == [p] + payloads[1..];
      FramesCons(payloads);
      TokenizeFrames(payloads[1..]);
      TokenizeFramesStep(Header(Utf16Length(p)), p, rest, payloads[1..]);
    }
  }

  /** Round trip for one frame: a non-empty '~'-free payload that parses
      to a truthy value comes back as exactly that value. */
  lemma {:induction false} FrameRoundTrip(msg: string, v: Value, parse: Parser)
    requires '~' !in msg
    requires Accepts(msg, v, parse)
    ensures ParseWSPacket(Frame(msg), parse) == [v]
  {
    StripFrame(msg);
    assert Frames([msg]) == Frame(msg) by { assert Frame(msg) + [] == Frame(msg); }
    TokenizeFrames([msg]);
    DecodeTokensAppend([""], [msg], parse);
    DecodeOneToken("", v, parse);
    DecodeOneToken(msg, v, parse);
  }

  /** Round trip through formatWSPacket for an object whose serialisation
      the parser reads back: parseWSPacket returns that object. */
  lemma {:induction false} FormatRoundTrip(v: Value, parse: Parser, stringify: Serializer)
    requires IsObject(v) && Truthy(v)
    requires parse(stringify(v)) == Some(v)
    requires stringify(v) != [] && '~' !in stringify(v)
    ensures ParseWSPacket(FormatWSPacket(Object(v), stringify), parse) == [v]
  {
    FrameRoundTrip(stringify(v), v, parse);
  }

  /** The declared length is never checked: a header with any numeral in
      front of a '~'-free payload still yields that payload as the token. */
  lemma {:induction false} DeclaredLengthIgnored(ds: string, msg: string)
    requires ds != [] && AllDigits(ds) && '~' !in msg
    ensures Tokenize("~m~" + ds + "~m~" + msg) == ["", msg]
  {
    NumeralDelim(ds);
    SplitLeadingDelim("~m~" + ds + "~m~", msg);
    TokenizeSingleTildeFree(msg);
  }

  lemma {:induction false} TokenizeSingleTildeFree(msg: string)
    requires '~' !in msg
    ensures Tokenize(msg) == [msg]
  {
    TildeFreePrefixSplit(msg, []);
    assert msg + [] == msg;
    assert msg + "" == msg;
  }

  // ---------------------------------------------------------------------
  // Chunks: frames and heartbeats in any order
  // ---------------------------------------------------------------------

  /** One element of a chunk on the wire. */
  datatype Item = Beat | Msg(payload: string)

  /** The text of one item on the wire. */
  function Wire(item: Item): string
  {
    match item
    case Beat => Marker
    case Msg(p) => Frame(p)
  }

  /** The chunk a sender produces from a list of heartbeats and frames. */
  function Chunk(items: seq<Item>): string
  {
    if items == [] then [] else Wire(items[0]) + Chunk(items[1..])
  }

  /** The payloads of a chunk, in order. */
  function Payloads(items: seq<Item>): (ps: seq<string>)
    ensures |ps| <= |items|
  {
    if items == [] then []
    else (if items[0].Msg? then [items[0].payload] else []) + Payloads(items[1..])
  }

  /** Concatenation is associative. */
  lemma {:induction false} Associative<T>(a: seq<T>, b: seq<T>, c: seq<T>)
    ensures a + (b + c) == (a + b) + c
  {
    assert forall k | 0 <= k < |a + (b + c)| :: (a + (b + c))[k] == ((a + b) + c)[k];
  }

  lemma {:induction false} ChunkCons(x: seq<Item>, y: seq<Item>)
    requires x != []
    ensures Chunk(x + y) == Wire(x[0]) + Chunk(x[1..] + y)
  {
    assert (x + y)[0] == x[0];
    assert (x + y)[1..] == x[1..] + y;
  }

  lemma {:induction false} ChunkAppendStep(x: seq<Item>, y: seq<Item>)
    requires x != [] && Chunk(x[1..] + y) == Chunk(x[1..]) + Chunk(y)
    ensures Chunk(x + y) == Chunk(x) + Chunk(y)
  {
    ChunkCons(x, y);
    Associative(Wire(x[0]), Chunk(x[1..]), Chunk(y));
  }

  /** A chunk is built item by item. */
  lemma {:induction false} ChunkAppend(x: seq<Item>, y: seq<Item>)
    ensures Chunk(x + y) == Chunk(x) + Chunk(y)
  {
    if x == [] {
      assert x + y == y;
    } else {
      ChunkAppend(x[1..], y);
      ChunkAppendStep(x, y);
    }
  }

  lemma {:induction false} PayloadsCons(x: seq<Item>, y: seq<Item>)
    requires x != []
    ensures Payloads(x + y) == (if x[0].Msg? then [x[0].payload] else []) + Payloads(x[1..] + y)
  {
    assert (x + y)[0] == x[0];
    assert (x + y)[1..] == x[1..] + y;
  }

  lemma {:induction false} PayloadsAppendStep(x: seq<Item>, y: seq<Item>)
    requires x != [] && Payloads(x[1..] + y) == Payloads(x[1..]) + Payloads(y)
    ensures Payloads(x + y) == Payloads(x) + Payloads(y)
  {
    PayloadsCons(x, y);
    Associative(if x[0].Msg? then [x[0].payload] else [], Payloads(x[1..]), Payloads(y));
  }

  /** The payloads of a chunk are collected item by item. */
  lemma {:induction false} PayloadsAppend(x: seq<Item>, y: seq<Item>)
    ensures Payloads(x + y) == Payloads(x) + Payloads(y)
  {
    if x == [] {
      assert x + y == y;
    } else {
      PayloadsAppend(x[1..], y);
      PayloadsAppendStep(x, y);
    }
  }

  lemma {:induction false} ChunkOne(item: Item)
    ensures Chunk([item]) == Wire(item)
    ensures Payloads([item]) == if item.Msg? then [item.payload] else []
  {
    assert Chunk([item]) == Wire(item) + Chunk([]);
  }

  /** A payload whose frame survives any neighbour: no '~', and not the
      single character "h" (whose frame ends in "~h", so a heartbeat that
      follows it would be read as starting one character early). The empty
      payload is left out too: its frame `~m~0~m~` ends in '~', so the seam
      argument of `StripConcat` does not apply to it. */
  predicate Plain(p: string) {
    p != [] && '~' !in p && p != "h"
  }

  lemma {:induction false} FrameClosedEnd(p: string)
    requires Plain(p)
    ensures ClosedEnd(Frame(p))
  {
    var f := Frame(p);
    var h := Header(Utf16Length(p));
    assert f == h + p;
    assert f[|f| - 1] == p[|p| - 1] && p[|p| - 1] in p;
    if |p| >= 2 {
      assert f[|f| - 2] == p[|p| - 2] && p[|p| - 2] in p;
    } else {
      assert f[|f| - 2] == h[|h| - 1];
      assert p == [p[0]];
    }
  }

  /** Heartbeats vanish from a chunk of plain frames, wherever they stand. */
  lemma {:induction false} StripChunk(items: seq<Item>)
    requires forall k | 0 <= k < |items| :: items[k].Msg? ==> Plain(items[k].payload)
    ensures Strip(Chunk(items)) == Frames(Payloads(items))
  {
    if items != [] {
      var rest := Chunk(items[1..]);
      StripChunk(items[1..]);
      match items[0]
      case Beat =>
        assert Chunk(items) == Marker + rest;
        assert MarkerAt(Marker + rest);
        assert (Marker + rest)[3..] == rest;
        assert Payloads(items) == Payloads(items[1..]);
      case Msg(p) =>
        FrameClosedEnd(p);
        StripConcat(Frame(p), rest);
        StripFrame(p);
        assert Payloads(items) == [p] + Payloads(items[1..]);
        assert ([p] + Payloads(items[1..]))[1..] == Payloads(items[1..]);
    }
  }

  /** The payloads of a chunk's items are all plain. */
  lemma {:induction false} PayloadsPlain(items: seq<Item>)
    requires forall k | 0 <= k < |items| :: items[k].Msg? ==> Plain(items[k].payload)
    ensures forall k | 0 <= k < |Payloads(items)| :: Plain(Payloads(items)[k])
  {
    if items != [] {
      PayloadsPlain(items[1..]);
    }
  }

  /** The whole wire format: any mix of heartbeats and plain frames decodes
      to the packets of the payloads, in order, as if each were decoded alone. */
  lemma {:induction false} ChunkRoundTrip(items: seq<Item>, parse: Parser)
    requires forall k | 0 <= k < |items| :: items[k].Msg? ==> Plain(items[k].payload)
    ensures ParseWSPacket(Chunk(items), parse) == DecodeTokens(Payloads(items), parse)
  {
    StripChunk(items);
    PayloadsPlain(items);
    TokenizeFrames(Payloads(items));
    DecodeTokensAppend([""], Payloads(items), parse);
    DecodeOneToken("", JNull, parse);
  }

  /** The chunk of two frames, and its payloads. */
  lemma {:induction false} TwoFramesChunk(a: string, b: string)
    ensures Chunk([Msg(a), Msg(b)]) == Frame(a) + Frame(b)
    ensures Payloads([Msg(a), Msg(b)]) == [a, b]
  {
    assert [Msg(a), Msg(b)] == [Msg(a)] + [Msg(b)];
    ChunkAppend([Msg(a)], [Msg(b)]);
    PayloadsAppend([Msg(a)], [Msg(b)]);
    ChunkOne(Msg(a));
    ChunkOne(Msg(b));
  }

  /** Two well-formed frames in one chunk come back as two packets, in order. */
  lemma {:induction false} TwoFramesInOrder(a: string, va: Value, b: string, vb: Value, parse: Parser)
    requires Plain(a) && Plain(b)
    requires Accepts(a, va, parse) && Accepts(b, vb, parse)
    ensures ParseWSPacket(Frame(a) + Frame(b), parse) == [va, vb]
  {
    var items := [Msg(a), Msg(b)];
    forall k | 0 <= k < |items| ensures items[k].Msg? ==> Plain(items[k].payload) {
      if k == 0 { assert items[k].payload == a; } else { assert items[k].payload == b; }
    }
    forall k | 0 <= k < 2 ensures Accepts([a, b][k], [va, vb][k], parse) {
      if k == 0 { assert [a, b][k] == a; } else { assert [a, b][k] == b; }
    }
    TwoFramesChunk(a, b);
    ChunkRoundTrip(items, parse);
    DecodeTokensAllAccepted([a, b], [va, vb], parse);
  }

  /** The chunk `a`, heartbeat, `bad`, `b`, and its payloads. */
  lemma {:induction false} MalformedChunk(a: string, bad: string, b: string)
    ensures Chunk([Msg(a), Beat, Msg(bad), Msg(b)]) == Frame(a) + Marker + Frame(bad) + Frame(b)
    ensures Payloads([Msg(a), Beat, Msg(bad), Msg(b)]) == [a] + [bad] + [b]
  {
    var items := [Msg(a), Beat, Msg(bad), Msg(b)];
    assert items == [Msg(a)] + [Beat] + [Msg(bad)] + [Msg(b)];
    ChunkAppend([Msg(a)] + [Beat] + [Msg(bad)], [Msg(b)]);
    ChunkAppend([Msg(a)] + [Beat], [Msg(bad)]);
    ChunkAppend([Msg(a)], [Beat]);
    PayloadsAppend([Msg(a)] + [Beat] + [Msg(bad)], [Msg(b)]);
    PayloadsAppend([Msg(a)] + [Beat], [Msg(bad)]);
    PayloadsAppend([Msg(a)], [Beat]);
    ChunkOne(Msg(a));
    ChunkOne(Beat);
    ChunkOne(Msg(bad));
    ChunkOne(Msg(b));
    assert Payloads([Msg(a)] + [Beat]) == [a];
  }

  /** A malformed frame between two good ones, with a heartbeat in front of
      it, is dropped; the two good packets survive in order. */
  lemma {:induction false} MalformedFrameDropped(a: string, va: Value, bad: string, b: string, vb: Value, parse: Parser)
    requires Plain(a) && Plain(bad) && Plain(b)
    requires Accepts(a, va, parse) && Accepts(b, vb, parse)
    requires parse(bad).None?
    ensures ParseWSPacket(Frame(a) + Marker + Frame(bad) + Frame(b), parse) == [va, vb]
  {
    var items := [Msg(a), Beat, Msg(bad), Msg(b)];
    MalformedChunk(a, bad, b);
    assert forall k | 0 <= k < |items| :: items[k].Msg? ==> Plain(items[k].payload) by {
      forall k | 0 <= k < |items| && items[k].Msg? ensures Plain(items[k].payload) {
        assert k == 0 || k == 2 || k == 3;
      }
    }
    ChunkRoundTrip(items, parse);
    DecodeGoodBadGood(a, va, bad, b, vb, parse);
  }

  lemma {:induction false} DecodeGoodBadGood(a: string, va: Value, bad: string, b: string, vb: Value, parse: Parser)
    requires Accepts(a, va, parse) && Accepts(b, vb, parse)
    requires parse(bad).None?
    ensures DecodeTokens([a] + [bad] + [b], parse) == [va, vb]
  {
    DroppedTokenIsolated([a], bad, [b], parse);
    DecodeTokensAllAccepted([a], [va], parse);
    DecodeTokensAllAccepted([b], [vb], parse);
    assert [va] + [vb] == [va, vb];
  }

  // ---------------------------------------------------------------------
  // Where the pipeline order shows
  // ---------------------------------------------------------------------

  /** Digits are not '~'. */
  lemma {:induction false} DigitsTildeFree(ds: string)
    requires AllDigits(ds)
    ensures '~' !in ds
  {
    forall k | 0 <= k < |ds| ensures ds[k] != '~' {
      assert IsDigit(ds[k]);
    }
  }

  lemma {:induction false} DigitsAppend(x: string, y: string)
    requires AllDigits(x) && AllDigits(y)
    ensures AllDigits(x + y)
  {
    forall k | 0 <= k < |x + y| ensures IsDigit((x + y)[k]) {
      if k < |x| { assert (x + y)[k] == x[k]; } else { assert (x + y)[k] == y[k - |x|]; }
    }
  }

  /** A lone `~m~` tag is left as it is. */
  lemma {:induction false} StripTag()
    ensures Strip("~m~") == "~m~"
  {
    StripAfterTag([]);
    assert "~m~" + [] == "~m~";
  }

  /** Stripping runs before splitting, so a marker inside a would-be
      delimiter joins its two runs of digits into one real delimiter. */
  lemma {:induction false} StripJoinsDigits(x: string, y: string)
    requires x != [] && AllDigits(x) && AllDigits(y)
    ensures Strip("~m~" + x + Marker + y + "~m~") == "~m~" + (x + y) + "~m~"
  {
    var w := y + "~m~";
    assert "~m~" + x + Marker + y + "~m~" == "~m~" + (x + (Marker + w));
    assert (['~'] + (x + (Marker + w)))[1] == x[0] && IsDigit(x[0]);
    StripAfterTag(x + (Marker + w));
    DigitsTildeFree(x);
    StripTildeFreePrefix(x, Marker + w);
    StripMarkerHead(w);
    DigitsTildeFree(y);
    StripTildeFreePrefix(y, "~m~");
    StripTag();
    assert "~m~" + (x + (y + "~m~")) == "~m~" + (x + y) + "~m~";
  }

  /** ... so that chunk holds no packet at all: it is cut into two empty pieces. */
  lemma {:induction false} StripCreatesDelimiter(x: string, y: string, parse: Parser)
    requires x != [] && AllDigits(x) && AllDigits(y)
    ensures Tokenize(Strip("~m~" + x + Marker + y + "~m~")) == ["", ""]
    ensures ParseWSPacket("~m~" + x + Marker + y + "~m~", parse) == []
  {
    StripJoinsDigits(x, y);
    DigitsAppend(x, y);
    DeclaredLengthIgnored(x + y, "");
    assert "~m~" + (x + y) + "~m~" + "" == "~m~" + (x + y) + "~m~";
    DecodeOneToken("", JNull, parse);
    DecodeTokensAppend([""], [""], parse);
    assert [""] + [""] == ["", ""];
  }

  /** A frame spelled out: tag, numeral, tag, payload. */
  lemma {:induction false} FrameText(p: string, n: nat)
    requires n == Utf16Length(p)
    ensures Frame(p) == "~m~" + (Render(n) + ("~m~" + p))
  {
    var ds := Render(n);
    assert "~m~" + ds + "~m~" + p == "~m~" + (ds + ("~m~" + p));
  }

  /** The tail `~m` + marker of a broken header loses the marker. */
  lemma {:induction false} StripBrokenTag(r: string)
    requires '~' !in r
    ensures Strip("~m" + (Marker + r)) == "~m" + r
  {
    assert "~m" + (Marker + r) == ['~'] + (['m'] + (Marker + r));
    assert !MarkerAt(['~'] + (['m'] + (Marker + r)));
    StripKeep('~', ['m'] + (Marker + r));
    StripKeep('m', Marker + r);
    StripMarkerHead(r);
    StripTildeFreePrefix(r, []);
    assert r + [] == r;
    assert ['~'] + (['m'] + r) == "~m" + r;
  }

  lemma {:induction false} HeartbeatTailLength(r: string)
    ensures Utf16Length("h~" + r) == Utf16Length(r) + 2
  {
    Utf16LengthAppend("h~", r);
    Utf16LengthBmp("h~");
  }

  /** The no-'~' guard of the round trip matters: a payload starting with
      "h~" loses that head, and the header its last '~', since the two
      together read as a marker. */
  lemma {:induction false} PayloadStartingWithHeartbeatTail(r: string)
    requires '~' !in r
    ensures Strip(Frame("h~" + r)) == "~m~" + (Render(Utf16Length(r) + 2) + ("~m" + r))
  {
    HeartbeatTailLength(r);
    FrameText("h~" + r, Utf16Length(r) + 2);
    StripHeaderBeforeHeartbeatTail(Render(Utf16Length(r) + 2), r);
  }

  /** The strip of a header `~m~<ds>~m~` in front of `h~` + r. */
  lemma {:induction false} StripHeaderBeforeHeartbeatTail(ds: string, r: string)
    requires ds != [] && AllDigits(ds) && '~' !in r
    ensures Strip("~m~" + (ds + ("~m~" + ("h~" + r)))) == "~m~" + (ds + ("~m" + r))
  {
    assert "~m~" + ("h~" + r) == "~m" + (Marker + r);
    var z := ds + ("~m" + (Marker + r));
    assert (['~'] + z)[1] == ds[0] && IsDigit(ds[0]);
    StripAfterTag(z);
    DigitsTildeFree(ds);
    StripTildeFreePrefix(ds, "~m" + (Marker + r));
    StripBrokenTag(r);
  }
}
