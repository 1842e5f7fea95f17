/**
 The incremental request parser (src/protocol/resp.rs) for multibulk requests, the arrays of bulk
 strings of the RESP specification: however the bytes arrive, the same requests come out.
 */
module RespSpec {
  import opened Bits
  import opened Decimal

  const MAX_MULTIBULK: nat := 1_048_576
  const MAX_BULK: nat := 512 * 1024 * 1024
  const CR: byte := 13
  const LF: byte := 10
  const STAR: byte := 42
  const DOLLAR: byte := 36
  const CRLF: Bytes := [13, 10]

  type Request = seq<Bytes>

  // ---- parsing ----

  /** Position of the first CR LF. */
  function FindCrlf(b: Bytes): (r: Option<nat>)
    ensures r.Some? ==> r.value + 2 <= |b|
  {
    if |b| < 2 then None
    else if b[0] == CR && b[1] == LF then Some(0)
    else var r := FindCrlf(b[1..]); if r.None? then None else Some(r.value + 1)
  }

  /** More input is needed, the input is no request, or a request and its size. */
  datatype Outcome = More | Bad | Done(size: nat, args: Request)

  datatype One = Short | Wrong | Bulk(size: nat, text: Bytes)

  /** The bulk string at the front of `b`. */
  function FirstBulk(b: Bytes): (r: One)
    ensures r.Bulk? ==> r.size <= |b|
  {
    if b == [] then Short
    else if b[0] != DOLLAR then Wrong
    else
      var p := FindCrlf(b[1..]);
      if p.None? then Short else
      var len := ParsedLoose(b[1..1 + p.value]);
      if len.None? || len.value < 0 || len.value > MAX_BULK then Wrong else
      var start := 1 + p.value + 2;
      var end := start + len.value;
      if |b| < end + 2 then Short
      else if b[end..end + 2] != CRLF then Wrong
      else Bulk(end + 2, b[start..end])
  }

  /** `n` bulk strings at the front of `b`. */
  function Bulks(b: Bytes, n: nat): (r: Outcome)
    ensures r.Done? ==> r.size <= |b|
    decreases n
  {
    if n == 0 then Done(0, []) else
    match FirstBulk(b)
    case Short => More
    case Wrong => Bad
    case Bulk(size, text) =>
      var r := Bulks(b[size..], n - 1);
      if r.Done? then Done(size + r.size, [text] + r.args) else r
  }

  /** A whole multibulk request at the front of `b`, which starts with its star. */
  function Multibulk(b: Bytes): (r: Outcome)
    requires b != [] && b[0] == STAR
    ensures r.Done? ==> 0 < r.size <= |b|
  {
    var p := FindCrlf(b);
    if p.None? then More else
    StarBeforeCrlf(b);
    var count := ParsedLoose(b[1..p.value]);
    if count.None? || count.value < 0 || count.value > MAX_MULTIBULK then Bad else
    var r := Bulks(b[p.value + 2..], count.value);
    if r.Done? then Done(p.value + 2 + r.size, r.args) else r
  }

  lemma StarBeforeCrlf(b: Bytes)
    requires b != [] && b[0] == STAR && FindCrlf(b).Some?
    ensures FindCrlf(b).value >= 1
  {
  }

  // ---- what clients send ----

  function Sent(s: Bytes): Bytes { [DOLLAR] + Printed(|s|) + CRLF + s + CRLF }

  function BulkList(args: Request): Bytes { if args == [] then [] else Sent(args[0]) + BulkList(args[1..]) }

  function Encoded(args: Request): (b: Bytes)
    ensures b != [] && b[0] == STAR
  {
    [STAR] + Printed(|args|) + CRLF + BulkList(args)
  }

  predicate InLimits(args: Request) { |args| <= MAX_MULTIBULK && forall i :: 0 <= i < |args| ==> |args[i]| <= MAX_BULK }

  function Stream(rs: seq<Request>): Bytes { if rs == [] then [] else Encoded(rs[0]) + Stream(rs[1..]) }

  // ---- lines ----

  predicate NoCr(d: Bytes) { forall i :: 0 <= i < |d| ==> d[i] != CR }

  lemma PrintedNoCr(n: nat)
    ensures NoCr(Printed(n))
  {
  }

  lemma {:induction false} CrlfAfter(d: Bytes, rest: Bytes)
    requires NoCr(d)
    ensures FindCrlf(d + CRLF + rest) == Some(|d|)
    decreases |d|
  {
    var b := d + CRLF + rest;
    if d == [] {
      assert b[0] == CR && b[1] == LF;
    } else {
      assert b[1..] == d[1..] + CRLF + rest && b[0] == d[0];
      CrlfAfter(d[1..], rest);
    }
  }

  lemma {:induction false} CrlfMissing(d: Bytes, b: Bytes)
    requires NoCr(d) && b <= d + CRLF && |b| < |d| + 2
    ensures FindCrlf(b) == None
    decreases |b|
  {
    if |b| >= 2 {
      assert d != [];
      assert b[0] == (d + CRLF)[0] == d[0];
      assert b[1..] <= d[1..] + CRLF by {
        assert (d + CRLF)[1..] == d[1..] + CRLF;
        assert b == (d + CRLF)[..|b|];
      }
      CrlfMissing(d[1..], b[1..]);
    }
  }

  // ---- one bulk string ----

  /** The front of `b` is as far as it goes the front of `whole`. */
  lemma PrefixCut(b: Bytes, x: Bytes, y: Bytes)
    requires b <= x + y
    ensures |b| <= |x| ==> b <= x
    ensures |b| >= |x| ==> b == x + b[|x|..] && b[|x|..] <= y
  {
    assert b == (x + y)[..|b|];
    if |b| >= |x| {
      assert b[..|x|] == x && b == b[..|x|] + b[|x|..];
    }
  }

  lemma BulkSize(s: Bytes)
    ensures |Sent(s)| == |Printed(|s|)| + |s| + 5
  {
  }

  /** A complete bulk string is taken off the front. */
  lemma BulkTaken(s: Bytes, rest: Bytes, n: nat)
    requires n >= 1 && |s| <= MAX_BULK
    ensures var r := Bulks(rest, n - 1);
            Bulks(Sent(s) + rest, n) == if r.Done? then Done(|Sent(s)| + r.size, [s] + r.args) else r
  {
    hide FirstBulk, Sent;
    FirstSent(s, rest);
    assert (Sent(s) + rest)[|Sent(s)|..] == rest;
  }

  lemma FirstSent(s: Bytes, rest: Bytes)
    requires |s| <= MAX_BULK
    ensures FirstBulk(Sent(s) + rest) == Bulk(|Sent(s)|, s)
  {
    hide Printed, FindCrlf, ParsedLoose;
    var d, b := Printed(|s|), Sent(s) + rest;
    PrintedNoCr(|s|);
    SentSlices(d, s, rest);
    CrlfAfter(d, s + CRLF + rest);
    ParsedLoosePrinted(|s|);
    BulkSize(s);
  }

  lemma SentSlices(d: Bytes, s: Bytes, rest: Bytes)
    ensures var b := [DOLLAR] + d + CRLF + s + CRLF + rest;
            var start := 1 + |d| + 2;
            var end := start + |s|;
            && b[0] == DOLLAR && b[1..] == d + CRLF + (s + CRLF + rest) && b[1..1 + |d|] == d
            && b[start..end] == s && b[end..end + 2] == CRLF
  {
    var b := [DOLLAR] + d + CRLF + s + CRLF + rest;
    assert b == [DOLLAR] + (d + CRLF + (s + CRLF + rest));
  }

  /** An incomplete one asks for more. */
  lemma BulkCut(s: Bytes, b: Bytes, n: nat)
    requires n >= 1 && |s| <= MAX_BULK && b <= Sent(s) && |b| < |Sent(s)|
    ensures Bulks(b, n) == More
  {
    hide Printed, FindCrlf, ParsedLoose;
    BulkSize(s);
    if b != [] {
      var d := Printed(|s|);
      PrintedNoCr(|s|);
      assert Sent(s) == [DOLLAR] + (d + CRLF + (s + CRLF));
      PrefixCut(b, [DOLLAR], d + CRLF + (s + CRLF));
      var t := b[1..];
      PrefixCut(t, d + CRLF, s + CRLF);
      if |t| < |d| + 2 {
        CrlfMissing(d, t);
      } else {
        var rest := t[|d| + 2..];
        assert t == d + CRLF + rest;
        CrlfAfter(d, rest);
        assert b[1..1 + |d|] == d;
        ParsedLoosePrinted(|s|);
      }
    }
  }

  lemma {:induction false} BulksTaken(args: Request, rest: Bytes)
    requires forall i :: 0 <= i < |args| ==> |args[i]| <= MAX_BULK
    ensures Bulks(BulkList(args) + rest, |args|) == Done(|BulkList(args)|, args)
    decreases |args|
  {
    hide Sent;
    if args != [] {
      var tail := BulkList(args[1..]) + rest;
      assert BulkList(args) + rest == Sent(args[0]) + tail;
      BulkTaken(args[0], tail, |args|);
      BulksTaken(args[1..], rest);
      assert args == [args[0]] + args[1..];
    }
  }

  lemma {:induction false} BulksCut(args: Request, b: Bytes)
    requires (forall i :: 0 <= i < |args| ==> |args[i]| <= MAX_BULK) && b <= BulkList(args) && |b| < |BulkList(args)|
    ensures Bulks(b, |args|) == More
    decreases |args|
  {
    hide Sent, Bulks;
    var x := Sent(args[0]);
    PrefixCut(b, x, BulkList(args[1..]));
    if |b| < |x| {
      BulkCut(args[0], b, |args|);
    } else {
      BulkTaken(args[0], b[|x|..], |args|);
      BulksCut(args[1..], b[|x|..]);
    }
  }

  // ---- one request ----

  lemma HeaderSplits(args: Request, rest: Bytes)
    ensures Encoded(args) + rest == ([STAR] + Printed(|args|)) + CRLF + (BulkList(args) + rest)
  {
    hide Printed, BulkList;
  }

  /** A complete request is parsed, and its size is exactly its encoding. */
  lemma RequestTaken(args: Request, rest: Bytes)
    requires InLimits(args)
    ensures Multibulk(Encoded(args) + rest) == Done(|Encoded(args)|, args)
  {
    hide Printed, FindCrlf, ParsedLoose, BulkList, Bulks;
    var d, b := Printed(|args|), Encoded(args) + rest;
    HeaderSplits(args, rest);
    HeaderSplits(args, []);
    PrintedNoCr(|args|);
    CrlfAfter([STAR] + d, BulkList(args) + rest);
    var p := |d| + 1;
    assert b[1..p] == d && b[p + 2..] == BulkList(args) + rest;
    ParsedLoosePrinted(|args|);
    BulksTaken(args, rest);
    assert |Encoded(args)| == p + 2 + |BulkList(args)|;
  }

  /** A bulk above the limit is refused where it stands. */
  lemma {:induction false} BulksRefused(args: Request, rest: Bytes)
    requires exists i :: 0 <= i < |args| && |args[i]| > MAX_BULK
    ensures Bulks(BulkList(args) + rest, |args|) == Bad
    decreases |args|
  {
    hide Sent, FirstBulk;
    var tail := BulkList(args[1..]) + rest;
    assert BulkList(args) + rest == Sent(args[0]) + tail;
    if |args[0]| > MAX_BULK {
      FirstRefused(args[0], tail);
    } else {
      var i :| 0 <= i < |args| && |args[i]| > MAX_BULK;
      assert args[1..][i - 1] == args[i];
      BulkTaken(args[0], tail, |args|);
      BulksRefused(args[1..], rest);
    }
  }

  lemma FirstRefused(s: Bytes, rest: Bytes)
    requires |s| > MAX_BULK
    ensures FirstBulk(Sent(s) + rest) == Wrong
  {
    hide Printed, FindCrlf, ParsedLoose;
    var d, b := Printed(|s|), Sent(s) + rest;
    PrintedNoCr(|s|);
    SentSlices(d, s, rest);
    CrlfAfter(d, s + CRLF + rest);
    ParsedLooseNatural(|s|);
  }

  /** A request is taken if and only if it has at most 1048576 arguments of at most 2^29 bytes; otherwise it is an error. */
  lemma RequestAnswered(args: Request, rest: Bytes)
    ensures var fits := |args| <= 1048576 && forall i :: 0 <= i < |args| ==> |args[i]| <= 0x2000_0000;
            Multibulk(Encoded(args) + rest) == if fits then Done(|Encoded(args)|, args) else Bad
  {
    hide Printed, FindCrlf, ParsedLoose, BulkList, Bulks;
    if InLimits(args) {
      RequestTaken(args, rest);
      return;
    }
    var d, b := Printed(|args|), Encoded(args) + rest;
    HeaderSplits(args, rest);
    PrintedNoCr(|args|);
    CrlfAfter([STAR] + d, BulkList(args) + rest);
    var p := |d| + 1;
    assert b[1..p] == d && b[p + 2..] == BulkList(args) + rest;
    ParsedLooseNatural(|args|);
    if |args| <= MAX_MULTIBULK {
      BulksRefused(args, rest);
    }
  }

  /** Any proper part of a request asks for more. */
  lemma RequestCut(args: Request, b: Bytes)
    requires InLimits(args) && b != [] && b <= Encoded(args) && |b| < |Encoded(args)|
    ensures b[0] == STAR && Multibulk(b) == More
  {
    hide Printed, FindCrlf, ParsedLoose, BulkList, Bulks;
    assert b[0] == Encoded(args)[0];
    var d := [STAR] + Printed(|args|);
    PrintedNoCr(|args|);
    assert Encoded(args) == d + CRLF + BulkList(args);
    PrefixCut(b, d + CRLF, BulkList(args));
    if |b| < |d| + 2 {
      CrlfMissing(d, b);
    } else {
      var rest := b[|d| + 2..];
      assert b == d + CRLF + rest;
      CrlfAfter(d, rest);
      assert b[1..|d|] == Printed(|args|) && b[|d| + 2..] == rest;
      ParsedLoosePrinted(|args|);
      BulksCut(args, rest);
    }
  }

  // ---- runs ----

  datatype Parser = Parser(buf: Bytes, broken: bool)

  /** One poll; `Inline` stands for every inline command, whose parsing is not part of this model. */
  datatype Reply = Nothing | Request(args: Request) | Error | Inline

  function Feed(p: Parser, data: Bytes): Parser { if p.broken then p else p.(buf := p.buf + data) }

  function Poll(p: Parser): (Parser, Reply) {
    if p.broken then (p, Error)
    else if p.buf == [] then (p, Nothing)
    else if p.buf[0] == STAR then
      match Multibulk(p.buf)
      case More => (p, Nothing)
      case Bad => (p.(broken := true), Error)
      case Done(size, args) => (p.(buf := p.buf[size..]), Request(args))
    else if p.buf[0] == DOLLAR || p.buf[0] == 43 || p.buf[0] == 45 || p.buf[0] == 58 then (p, Error)
    else (p, Inline)
  }

  /** What a connection does: bytes arrive, or the parser is polled. */
  datatype Event = Arrive(data: Bytes) | Ask

  function Arrived(es: seq<Event>): Bytes {
    if es == [] then [] else Arrived(es[..|es| - 1]) + if es[|es| - 1].Arrive? then es[|es| - 1].data else []
  }

  /** The parser after the events, and the replies that were not `Nothing`. */
  function Run(es: seq<Event>): (Parser, seq<Reply>) {
    if es == [] then (Parser([], false), []) else
    var (p, out) := Run(es[..|es| - 1]);
    match es[|es| - 1]
    case Arrive(data) => (Feed(p, data), out)
    case Ask =>
      var (p', r) := Poll(p);
      (p', if r.Nothing? then out else out + [r])
  }

  function AsReplies(rs: seq<Request>): seq<Reply> { if rs == [] then [] else AsReplies(rs[..|rs| - 1]) + [Request(rs[|rs| - 1])] }

  predicate AllInLimits(rs: seq<Request>) { forall i :: 0 <= i < |rs| ==> InLimits(rs[i]) }

  /** The replies are the first `k` requests, and the buffer holds what arrived after them. */
  predicate Follows(es: seq<Event>, rs: seq<Request>, k: nat) {
    && k <= |rs|
    && var (p, out) := Run(es);
       !p.broken && out == AsReplies(rs[..k]) && Arrived(es) == Stream(rs[..k]) + p.buf
  }

  lemma {:induction false} StreamConcat(a: seq<Request>, b: seq<Request>)
    ensures Stream(a + b) == Stream(a) + Stream(b)
    decreases |a|
  {
    hide Encoded;
    if a == [] {
      assert a + b == b;
    } else {
      assert (a + b)[1..] == a[1..] + b;
      StreamConcat(a[1..], b);
    }
  }

  lemma StreamOne(r: Request)
    ensures Stream([r]) == Encoded(r)
  {
    assert [r][1..] == [];
    assert Encoded(r) + [] == Encoded(r);
  }

  /** A poll gives the next request exactly when all of it has arrived. */
  lemma PollExact(buf: Bytes, rs: seq<Request>, k: nat)
    requires AllInLimits(rs) && k <= |rs| && buf <= Stream(rs[k..])
    ensures var (p, r) := Poll(Parser(buf, false));
            if k < |rs| && |buf| >= |Encoded(rs[k])|
            then r == Request(rs[k]) && !p.broken && buf == Encoded(rs[k]) + p.buf && p.buf <= Stream(rs[k + 1..])
            else r == Nothing && p == Parser(buf, false)
  {
    hide Multibulk, Encoded, InLimits;
    if k < |rs| {
      var x := Encoded(rs[k]);
      EncodedStarts(rs[k]);
      assert rs[k..][0] == rs[k] && rs[k..][1..] == rs[k + 1..];
      PrefixCut(buf, x, Stream(rs[k + 1..]));
      if |buf| >= |x| {
        RequestTaken(rs[k], buf[|x|..]);
      } else if buf != [] {
        RequestCut(rs[k], buf);
      }
    }
  }

  lemma EncodedStarts(r: Request)
    ensures Encoded(r) != [] && Encoded(r)[0] == STAR
  {
  }

  lemma OneMore(rs: seq<Request>, k: nat, buf: Bytes)
    requires k < |rs|
    ensures AsReplies(rs[..k + 1]) == AsReplies(rs[..k]) + [Request(rs[k])]
    ensures Stream(rs[..k]) + (Encoded(rs[k]) + buf) == Stream(rs[..k + 1]) + buf
  {
    hide Encoded, Stream;
    var done := rs[..k + 1];
    assert done[..k] == rs[..k] && done == rs[..k] + [rs[k]];
    StreamConcat(rs[..k], [rs[k]]);
    StreamOne(rs[k]);
    assert Stream(rs[..k]) + (Encoded(rs[k]) + buf) == Stream(rs[..k]) + Encoded(rs[k]) + buf;
  }

  lemma AskStep(es: seq<Event>, rs: seq<Request>, k: nat) returns (k': nat)
    requires AllInLimits(rs) && Follows(es, rs, k) && Arrived(es) <= Stream(rs)
    ensures Follows(es + [Ask], rs, k')
  {
    hide Poll, Encoded, Stream, AsReplies;
    var es' := es + [Ask];
    assert es'[..|es|] == es;
    var (p, out) := Run(es);
    assert Arrived(es') == Arrived(es) + [] == Arrived(es);
    assert rs == rs[..k] + rs[k..];
    StreamConcat(rs[..k], rs[k..]);
    PrefixCut(Arrived(es), Stream(rs[..k]), Stream(rs[k..]));
    assert Arrived(es)[|Stream(rs[..k])|..] == p.buf;
    PollExact(p.buf, rs, k);
    assert p == Parser(p.buf, false);
    if k < |rs| && |p.buf| >= |Encoded(rs[k])| {
      k' := k + 1;
      OneMore(rs, k, Poll(p).0.buf);
    } else {
      k' := k;
    }
  }

  lemma ArriveStep(es: seq<Event>, rs: seq<Request>, k: nat, data: Bytes)
    requires Follows(es, rs, k)
    ensures Follows(es + [Arrive(data)], rs, k)
  {
    hide Poll, Encoded;
    var es' := es + [Arrive(data)];
    assert es'[..|es|] == es;
    var (p, out) := Run(es);
    assert Stream(rs[..k]) + p.buf + data == Stream(rs[..k]) + (p.buf + data);
  }

  /**
   Chunking does not matter: whatever part of a stream of requests has arrived, in whatever pieces and
   between whatever polls, the replies are the first requests in order, never an error, and the
   buffer holds exactly the unread rest.
   */
  lemma {:induction false} ChunkingIndependence(es: seq<Event>, rs: seq<Request>) returns (k: nat)
    requires AllInLimits(rs) && Arrived(es) <= Stream(rs)
    ensures Follows(es, rs, k)
    decreases |es|
  {
    if es == [] {
      k := 0;
      assert rs[..0] == [];
    } else {
      var n := |es| - 1;
      var d, e := es[..n], es[n];
      assert es == d + [e];
      assert Arrived(d) <= Arrived(es);
      k := ChunkingIndependence(d, rs);
      match e {
        case Arrive(data) => ArriveStep(d, rs, k, data);
        case Ask => k := AskStep(d, rs, k);
      }
    }
  }

  // ---- any multibulk bytes, well formed or not ----

  lemma {:induction false} CrlfStable(b: Bytes, rest: Bytes)
    requires FindCrlf(b).Some?
    ensures FindCrlf(b + rest) == FindCrlf(b)
    decreases |b|
  {
    if !(b[0] == CR && b[1] == LF) {
      CrlfStable(b[1..], rest);
      assert (b + rest)[1..] == b[1..] + rest;
    }
  }

  lemma BulkStable(b: Bytes, rest: Bytes)
    requires FirstBulk(b) != Short
    ensures FirstBulk(b + rest) == FirstBulk(b)
  {
    hide FindCrlf, ParsedLoose;
    var c := b + rest;
    if b[0] == DOLLAR {
      assert c[1..] == b[1..] + rest;
      CrlfStable(b[1..], rest);
      var p := FindCrlf(b[1..]).value;
      assert c[1..1 + p] == b[1..1 + p];
      var len := ParsedLoose(b[1..1 + p]);
      if len.Some? && 0 <= len.value <= MAX_BULK {
        var end := 1 + p + 2 + len.value;
        assert c[end..end + 2] == b[end..end + 2] && c[1 + p + 2..end] == b[1 + p + 2..end];
      }
    }
  }

  lemma {:induction false} BulksStable(b: Bytes, rest: Bytes, n: nat)
    requires Bulks(b, n) != More
    ensures Bulks(b + rest, n) == Bulks(b, n)
    decreases n
  {
    hide FirstBulk;
    if n > 0 {
      BulkStable(b, rest);
      var r := FirstBulk(b);
      if r.Bulk? {
        assert (b + rest)[r.size..] == b[r.size..] + rest;
        BulksStable(b[r.size..], rest, n - 1);
      }
    }
  }

  /** What follows does not change a verdict. */
  lemma MultibulkStable(b: Bytes, rest: Bytes)
    requires b != [] && b[0] == STAR && Multibulk(b) != More
    ensures Multibulk(b + rest) == Multibulk(b)
  {
    hide FindCrlf, ParsedLoose, Bulks;
    var c := b + rest;
    CrlfStable(b, rest);
    StarBeforeCrlf(b);
    var p := FindCrlf(b).value;
    assert c[1..p] == b[1..p] && c[p + 2..] == b[p + 2..] + rest;
    var count := ParsedLoose(b[1..p]);
    if count.Some? && 0 <= count.value <= MAX_MULTIBULK {
      BulksStable(b[p + 2..], rest, count.value);
    }
  }

  /** All replies to `b` at once, what stays unread, and whether the input was refused. */
  datatype Decoded = Decoded(replies: seq<Reply>, rest: Bytes, broken: bool)

  function Decode(b: Bytes): Decoded
    decreases |b|
  {
    if b == [] || b[0] != STAR then Decoded([], b, false) else
    match Multibulk(b)
    case More => Decoded([], b, false)
    case Bad => Decoded([Error], b, true)
    case Done(size, args) => var d := Decode(b[size..]); d.(replies := [Request(args)] + d.replies)
  }

  /** Every request starts with its star, as far as the parser looks. */
  predicate MultibulkOnly(b: Bytes) {
    var d := Decode(b); d.broken || d.rest == [] || d.rest[0] == STAR
  }

  lemma {:induction false} DecodeMore(b: Bytes, more: Bytes)
    ensures Decode(b).broken ==> Decode(b + more).broken && Decode(b + more).replies == Decode(b).replies
    ensures !MultibulkOnly(b) ==> !MultibulkOnly(b + more)
    decreases |b|
  {
    hide Multibulk;
    if b != [] && b[0] == STAR && Multibulk(b) != More {
      MultibulkStable(b, more);
      var r := Multibulk(b);
      if r.Done? {
        assert (b + more)[r.size..] == b[r.size..] + more;
        DecodeMore(b[r.size..], more);
      }
    }
  }

  /** The front of `b` consists of requests that give `out`, and `buf` is what is left. */
  predicate Eats(b: Bytes, out: seq<Reply>, buf: Bytes)
    decreases |out|
  {
    if out == [] then b == buf
    else
      && b != [] && b[0] == STAR
      && var r := Multibulk(b);
         r.Done? && out[0] == Request(r.args) && Eats(b[r.size..], out[1..], buf)
  }

  lemma {:induction false} EatsMore(b: Bytes, out: seq<Reply>, buf: Bytes, more: Bytes)
    requires Eats(b, out, buf)
    ensures Eats(b + more, out, buf + more)
    decreases |out|
  {
    hide Multibulk;
    if out != [] {
      MultibulkStable(b, more);
      var r := Multibulk(b);
      assert (b + more)[r.size..] == b[r.size..] + more;
      EatsMore(b[r.size..], out[1..], buf, more);
    }
  }

  lemma {:induction false} EatsOne(b: Bytes, out: seq<Reply>, buf: Bytes)
    requires Eats(b, out, buf) && buf != [] && buf[0] == STAR && Multibulk(buf).Done?
    ensures var r := Multibulk(buf); Eats(b, out + [Request(r.args)], buf[r.size..])
    decreases |out|
  {
    hide Multibulk;
    var r := Multibulk(buf);
    var out' := out + [Request(r.args)];
    if out == [] {
      assert out'[1..] == [];
    } else {
      assert out'[1..] == out[1..] + [Request(r.args)];
      EatsOne(b[Multibulk(b).size..], out[1..], buf);
    }
  }

  lemma {:induction false} EatsDecode(b: Bytes, out: seq<Reply>, buf: Bytes)
    requires Eats(b, out, buf)
    ensures Decode(b) == Decode(buf).(replies := out + Decode(buf).replies)
    decreases |out|
  {
    hide Multibulk, Decode;
    var d := Decode(buf);
    if out == [] {
      assert out + d.replies == d.replies;
    } else {
      DecodeOne(b);
      EatsDecode(b[Multibulk(b).size..], out[1..], buf);
      assert out + d.replies == [out[0]] + (out[1..] + d.replies);
    }
  }

  lemma DecodeOne(b: Bytes)
    requires b != [] && b[0] == STAR && Multibulk(b).Done?
    ensures var r := Multibulk(b); var d := Decode(b[r.size..]);
            Decode(b) == d.(replies := [Request(r.args)] + d.replies)
  {
    hide Multibulk;
  }

  /** The parser has answered the front of what arrived; once it is broken it only repeats the error. */
  predicate Answers(es: seq<Event>) {
    var (p, out) := Run(es);
    var b := Arrived(es);
    if p.broken then
      var d := Decode(b);
      d.broken && d.replies <= out && forall i :: |d.replies| <= i < |out| ==> out[i] == Error
    else Eats(b, out, p.buf)
  }

  lemma AskAnswers(es: seq<Event>)
    requires Answers(es) && MultibulkOnly(Arrived(es))
    ensures Answers(es + [Ask])
  {
    hide Multibulk, Eats;
    var es' := es + [Ask];
    assert es'[..|es|] == es;
    var (p, out) := Run(es);
    var b := Arrived(es);
    assert Arrived(es') == b + [] == b;
    if !p.broken {
      EatsDecode(b, out, p.buf);
      if p.buf != [] && p.buf[0] == STAR && Multibulk(p.buf).Done? {
        EatsOne(b, out, p.buf);
      }
    }
  }

  lemma ArriveAnswers(es: seq<Event>, data: Bytes)
    requires Answers(es)
    ensures Answers(es + [Arrive(data)])
  {
    hide Multibulk, Eats, Decode;
    var es' := es + [Arrive(data)];
    assert es'[..|es|] == es;
    var (p, out) := Run(es);
    if p.broken {
      DecodeMore(Arrived(es), data);
    } else {
      EatsMore(Arrived(es), out, p.buf, data);
    }
  }

  lemma {:induction false} AllAnswers(es: seq<Event>)
    requires MultibulkOnly(Arrived(es))
    ensures Answers(es)
    decreases |es|
  {
    if es != [] {
      hide Answers, MultibulkOnly;
      var n := |es| - 1;
      var d, e := es[..n], es[n];
      assert es == d + [e];
      if !MultibulkOnly(Arrived(d)) {
        DecodeMore(Arrived(d), if e.Arrive? then e.data else []);
      }
      AllAnswers(d);
      match e {
        case Arrive(data) => ArriveAnswers(d, data);
        case Ask => AskAnswers(d);
      }
    }
  }

  /** Polling again would bring nothing new. */
  predicate Settled(p: Parser) { p.broken || Poll(p).1 == Nothing }

  /**
   For any multibulk bytes, valid or not, cut and polled in any way until nothing new comes: the replies are those
   of reading all the bytes at once, and only repetitions of an error may follow.
   */
  lemma ScheduleIndependence(es: seq<Event>)
    requires MultibulkOnly(Arrived(es)) && Settled(Run(es).0)
    ensures var (p, out) := Run(es);
            var d := Decode(Arrived(es));
            && p.broken == d.broken && d.replies <= out
            && (forall i :: |d.replies| <= i < |out| ==> out[i] == Error)
            && (!p.broken ==> out == d.replies && p.buf == d.rest)
  {
    hide Multibulk, Eats;
    AllAnswers(es);
    var (p, out) := Run(es);
    if !p.broken {
      EatsDecode(Arrived(es), out, p.buf);
      assert out + [] == out;
    }
  }
}

/** The parser as it runs. */
module Resp {
  import opened Bits
  import opened Decimal
  import opened RespSpec

  method Crlf(b: Bytes, start: nat) returns (r: Option<nat>)
    requires start <= |b|
    ensures r == FindCrlf(b[start..])
  {
    var i := start;
    while i + 2 <= |b|
      invariant start <= i <= |b|
      invariant var rest := FindCrlf(b[i..]); FindCrlf(b[start..]) == if rest.None? then None else Some(rest.value + i - start)
    {
      assert b[i..][1..] == b[i + 1..] && b[i..][0] == b[i] && b[i..][1] == b[i + 1];
      if b[i] == CR && b[i + 1] == LF {
        return Some(i - start);
      }
      i := i + 1;
    }
    r := None;
  }

  method ParseBulk(b: Bytes, pos: nat) returns (r: One)
    requires pos <= |b|
    ensures r == FirstBulk(b[pos..])
  {
    hide FindCrlf, ParsedLoose;
    if |b| <= pos {
      return Short;
    }
    if b[pos] != DOLLAR {
      return Wrong;
    }
    ghost var here := b[pos..];
    assert here[1..] == b[pos + 1..];
    var blen := Crlf(b, pos + 1);
    if blen.None? {
      return Short;
    }
    var bp := pos + 1;
    assert here[1..1 + blen.value] == b[bp..bp + blen.value];
    var len := ParseI64(b[bp..bp + blen.value]);
    if len.None? || len.value < 0 || len.value > MAX_BULK {
      return Wrong;
    }
    var start := bp + blen.value + 2;
    var end := start + len.value;
    if |b| < end + 2 {
      return Short;
    }
    assert here[end - pos..end - pos + 2] == b[end..end + 2];
    if b[end..end + 2] != CRLF {
      return Wrong;
    }
    assert here[start - pos..end - pos] == b[start..end];
    r := Bulk(end + 2 - pos, b[start..end]);
  }

  method ParseMultibulk(b: Bytes) returns (r: Outcome)
    requires b != [] && b[0] == STAR
    ensures r == Multibulk(b)
  {
    hide FindCrlf, ParsedLoose, FirstBulk;
    assert b[0..] == b;
    var line := Crlf(b, 0);
    if line.None? {
      return More;
    }
    StarBeforeCrlf(b);
    var count := ParseI64(b[1..line.value]);
    if count.None? || count.value < 0 || count.value > MAX_MULTIBULK {
      return Bad;
    }
    r := ParseBulks(b, line.value + 2, count.value);
  }

  method ParseBulks(b: Bytes, first: nat, count: nat) returns (r: Outcome)
    requires first <= |b|
    ensures r == var o := Bulks(b[first..], count); if o.Done? then Done(first + o.size, o.args) else o
  {
    hide FirstBulk;
    ghost var all := Bulks(b[first..], count);
    var pos: nat, args: RespSpec.Request := first, [];
    assert all.Done? ==> [] + all.args == all.args;
    for i := 0 to count
      invariant first <= pos <= |b|
      invariant var rest := Bulks(b[pos..], count - i);
                all == if rest.Done? then Done(pos - first + rest.size, args + rest.args) else rest
    {
      var one := ParseBulk(b, pos);
      FirstBulkFits(b[pos..]);
      match one {
        case Short =>
          return More;
        case Wrong =>
          return Bad;
        case Bulk(size, text) =>
          assert b[pos..][size..] == b[pos + size..];
          ghost var rest := Bulks(b[pos + size..], count - i - 1);
          assert rest.Done? ==> args + ([text] + rest.args) == args + [text] + rest.args;
          args := args + [text];
          pos := pos + size;
      }
    }
    assert args + [] == args;
    r := Done(pos, args);
  }

  lemma FirstBulkFits(b: Bytes)
    ensures FirstBulk(b).Bulk? ==> FirstBulk(b).size <= |b|
  {
  }

  class RespParser {
    var buf: Bytes
    var protocolError: bool

    function State(): Parser
      reads this
    {
      Parser(buf, protocolError)
    }

    constructor ()
      ensures State() == Parser([], false)
    {
      buf, protocolError := [], false;
    }

    method Feed(data: Bytes)
      modifies this
      ensures State() == RespSpec.Feed(old(State()), data)
    {
      if protocolError {
        return;
      }
      buf := buf + data;
    }

    method NextRequest() returns (r: Reply)
      modifies this
      ensures (State(), r) == Poll(old(State()))
    {
      hide Multibulk;
      if protocolError {
        return Error;
      }
      if buf == [] {
        return Nothing;
      }
      if buf[0] != STAR {
        if buf[0] == DOLLAR || buf[0] == 43 || buf[0] == 45 || buf[0] == 58 {
          return Error;
        }
        return Inline;
      }
      var o := ParseMultibulk(buf);
      match o {
        case More =>
          r := Nothing;
        case Bad =>
          protocolError := true;
          r := Error;
        case Done(size, args) =>
          buf := buf[size..];
          r := Request(args);
      }
    }
  }
}
