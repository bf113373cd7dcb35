// How a command enters the backlog (replicationFeedSlaves, replication.c).
module Propagate {
  import opened Bytes
  import opened Util
  import opened Objects
  import opened Options
  import opened Backlog
  import opened RespFormat

  function TextsOf(argv: seq<Object>): seq<bytes> {
    seq(|argv|, i requires 0 <= i < |argv| => TextOf(argv[i]))
  }

  /** Feeding twice is feeding the concatenation. */
  lemma FedTwice(l: Log, a: bytes, b: bytes)
    requires l.window.Some?
    ensures Fed(Fed(l, a), b) == Fed(l, a + b)
  {
    var w, n := l.window.value, l.size;
    assert (w + a) + b == w + (a + b);
    TailTwice(w + a, b, n);
  }

  lemma TailTwice(s: bytes, b: bytes, n: nat)
    ensures Tail(Tail(s, n) + b, n) == Tail(s + b, n)
  {}

  /** A header line: the marker, the number and CRLF. */
  method FeedHeader(b: Backlog, c: u8, n: nat)
    requires b.Valid() && b.replBacklog != null && n < 0x8000_0000_0000_0000
    modifies b, b.replBacklog
    ensures b.Valid() && b.replBacklog == old(b.replBacklog) && b.View() == Fed(old(b.View()), Header(c, n))
  {
    hide Text, Fed;
    var text := IntText(n);
    b.Feed([c] + text + [CR, LF]);
  }

  /** feedReplicationBacklogWithObject. */
  method FeedObject(b: Backlog, o: Object)
    requires b.Valid() && b.replBacklog != null && Fits(o)
    modifies b, b.replBacklog
    ensures b.Valid() && b.replBacklog == old(b.replBacklog) && b.View() == Fed(old(b.View()), TextOf(o))
  {
    hide Text, Fed;
    var text;
    if o.Int? { text := IntText(o.value); } else { text := o.text; }
    b.Feed(text);
  }

  method FeedArgument(b: Backlog, o: Object)
    requires b.Valid() && b.replBacklog != null && Fits(o) && |TextOf(o)| < 0x8000_0000_0000_0000
    modifies b, b.replBacklog
    ensures b.Valid() && b.replBacklog == old(b.replBacklog) && b.View() == Fed(old(b.View()), PrintArg(TextOf(o)))
  {
    ghost var l, t := b.View(), TextOf(o);
    hide Text, Fed, TextOf, Header, Backlog.Valid;
    FeedHeader(b, DOLLAR, StringObjectLen(o));
    FeedObject(b, o);
    b.Feed([CR, LF]);
    FedWindow(l, Header(DOLLAR, |t|));
    FedTwice(Fed(l, Header(DOLLAR, |t|)), t, [CR, LF]);
    FedTwice(l, Header(DOLLAR, |t|), t + [CR, LF]);
  }

  lemma FedWindow(l: Log, a: bytes)
    requires l.window.Some?
    ensures Fed(l, a).window.Some?
  {}

  /** The backlog receives the command in the form the parser reads back. */
  method FeedCommand(b: Backlog, argv: seq<Object>)
    requires b.Valid() && b.replBacklog != null && |argv| < 0x8000_0000_0000_0000
    requires forall i :: 0 <= i < |argv| ==> Fits(argv[i]) && |TextOf(argv[i])| < 0x8000_0000_0000_0000
    modifies b, b.replBacklog
    ensures b.Valid() && b.replBacklog == old(b.replBacklog)
    ensures b.View() == Fed(old(b.View()), PrintCommand(TextsOf(argv)))
  {
    ghost var l, texts := b.View(), TextsOf(argv);
    hide Text, Fed, TextOf, Header, PrintArgs, PrintArg, Backlog.Valid;
    ghost var h := Header(STAR, |argv|);
    FeedHeader(b, STAR, |argv|);
    var j := 0;
    NoArgs();
    assert texts[..0] == [] && h + [] == h;
    while j < |argv|
      invariant j <= |argv| && b.Valid() && b.replBacklog != null && b.replBacklog == old(b.replBacklog)
      invariant b.View() == Fed(l, h + PrintArgs(texts[..j]))
    {
      FeedArgument(b, argv[j]);
      FedTwice(l, h + PrintArgs(texts[..j]), PrintArg(texts[j]));
      NextArg(h, texts, j);
      j := j + 1;
    }
    assert texts[..j] == texts;
  }

  lemma NoArgs()
    ensures PrintArgs([]) == []
  {}

  lemma NextArg(h: bytes, texts: seq<bytes>, j: nat)
    requires j < |texts|
    ensures (h + PrintArgs(texts[..j])) + PrintArg(texts[j]) == h + PrintArgs(texts[..j + 1])
  {
    hide PrintArgs, PrintArg;
    PrintArgsAppend(texts[..j], texts[j]);
    assert texts[..j] + [texts[j]] == texts[..j + 1];
  }
}
