/**
  Runs of consecutive varints: how a snapshot lays out its header and its bucket
  counts, and how the decoding loops of the library walk over them.
*/
module Runs {
  import opened Varint

  const MAX_VARINT_SIZE: nat := 9

  predicate AllBelow(vals: seq<nat>, bound: nat)
  {
    forall i :: 0 <= i < |vals| ==> vals[i] < bound
  }

  lemma AllBelowTail(vals: seq<nat>, bound: nat)
    requires vals != [] && AllBelow(vals, bound)
    ensures vals[0] < bound && AllBelow(vals[1..], bound)
  {
  }

  /** The varints of `vals`, one after another. */
  function EncodeRun(vals: seq<nat>): (r: seq<byte>)
    requires AllBelow(vals, U64_MOD)
    ensures |vals| <= |r| <= MAX_VARINT_SIZE * |vals|
  {
    if vals == [] then [] else Encode(vals[0]) + EncodeRun(vals[1..])
  }

  lemma Associative<T>(x: seq<T>, y: seq<T>, z: seq<T>)
    ensures x + (y + z) == (x + y) + z
  {
  }

  lemma {:induction false} EncodeRunAppend(vals: seq<nat>, v: nat)
    requires AllBelow(vals, U64_MOD) && v < U64_MOD
    ensures AllBelow(vals + [v], U64_MOD)
    ensures EncodeRun(vals + [v]) == EncodeRun(vals) + Encode(v)
  {
    if vals != [] {
      assert (vals + [v])[1..] == vals[1..] + [v];
      EncodeRunAppend(vals[1..], v);
    }
  }

  lemma {:induction false} EncodeRunConcat(a: seq<nat>, b: seq<nat>)
    requires AllBelow(a, U64_MOD) && AllBelow(b, U64_MOD)
    ensures AllBelow(a + b, U64_MOD)
    ensures EncodeRun(a + b) == EncodeRun(a) + EncodeRun(b)
  {
    if a == [] {
      assert a + b == b;
    } else {
      assert (a + b)[1..] == a[1..] + b;
      EncodeRunConcat(a[1..], b);
      Associative(Encode(a[0]), EncodeRun(a[1..]), EncodeRun(b));
    }
  }

  /** Values decoded one after another, and the offset just past the last one. */
  datatype Run = Run(values: seq<nat>, end: nat)

  /**
    Up to `k` varints from offset `at` on. Decoding stops at the first varint the
    buffer cuts short, so fewer than `k` values means the buffer ended early.
  */
  function DecodeRun(buf: seq<byte>, at: nat, k: nat): (r: Run)
    decreases k
    ensures |r.values| <= k && at <= r.end
    ensures at <= |buf| ==> r.end <= |buf|
    ensures AllBelow(r.values, ROUND_TRIP_LIMIT)
  {
    if k == 0 then Run([], at)
    else match Decode(buf, at)
      case None => Run([], at)
      case Some((v, n)) =>
        var rest := DecodeRun(buf, at + n, k - 1);
        Run([v] + rest.values, rest.end)
  }

  /** A run that decodes at least one value starts with the varint at `at`. */
  lemma DecodeRunHead(buf: seq<byte>, at: nat, k: nat)
    requires k > 0 && |DecodeRun(buf, at, k).values| > 0
    ensures Decode(buf, at).Some?
    ensures var v, n := Decode(buf, at).value.0, Decode(buf, at).value.1;
      DecodeRun(buf, at, k).values == [v] + DecodeRun(buf, at + n, k - 1).values
  {
  }

  /** One decoded varint followed by the rest of the run. */
  lemma DecodeRunCons(buf: seq<byte>, at: nat, vals: seq<nat>, n: nat, end: nat)
    requires vals != [] && Decode(buf, at) == Some((vals[0], n))
    requires DecodeRun(buf, at + n, |vals| - 1) == Run(vals[1..], end)
    ensures DecodeRun(buf, at, |vals|) == Run(vals, end)
  {
    HeadTail(vals);
  }

  /** Decoding the varints of `vals` gives back `vals` and ends right after them. */
  lemma {:induction false} DecodeRunEncoded(buf: seq<byte>, at: nat, vals: seq<nat>, bytes: seq<byte>)
    requires AllBelow(vals, ROUND_TRIP_LIMIT) && bytes == EncodeRun(vals)
    requires at + |bytes| <= |buf| && buf[at..at + |bytes|] == bytes
    ensures DecodeRun(buf, at, |vals|) == Run(vals, at + |bytes|)
    decreases |vals|
  {
    if vals != [] {
      var n := DecodeFirst(buf, at, vals, bytes);
      DecodeRunEncoded(buf, at + n, vals[1..], EncodeRun(vals[1..]));
      DecodeRunCons(buf, at, vals, n, at + |bytes|);
    }
  }

  /**
    The first varint of an encoded run decodes to the first value; `n` is its width.
    The width is handed back as a plain number: callers that also see Decode's
    definition stay small when they do not see Encode's as well.
  */
  lemma DecodeFirst(buf: seq<byte>, at: nat, vals: seq<nat>, bytes: seq<byte>) returns (n: nat)
    requires vals != [] && AllBelow(vals, ROUND_TRIP_LIMIT) && bytes == EncodeRun(vals)
    requires at + |bytes| <= |buf| && buf[at..at + |bytes|] == bytes
    ensures Decode(buf, at) == Some((vals[0], n))
    ensures AllBelow(vals[1..], ROUND_TRIP_LIMIT)
    ensures n + |EncodeRun(vals[1..])| == |bytes|
    ensures buf[at + n..at + n + |EncodeRun(vals[1..])|] == EncodeRun(vals[1..])
  {
    AllBelowTail(vals, ROUND_TRIP_LIMIT);
    var e, tail := Encode(vals[0]), EncodeRun(vals[1..]);
    EncodeRunHead(vals);
    DecodeHead(buf, at, vals[0], e, tail);
    n := |e|;
  }

  lemma EncodeRunHead(vals: seq<nat>)
    requires vals != [] && AllBelow(vals, U64_MOD)
    ensures EncodeRun(vals) == Encode(vals[0]) + EncodeRun(vals[1..])
  {
  }

  /** A window holding the encoding of `v` and then `tail` decodes to `v` and leaves `tail`. */
  lemma DecodeHead(buf: seq<byte>, at: nat, v: nat, e: seq<byte>, tail: seq<byte>)
    requires v < ROUND_TRIP_LIMIT && e == Encode(v)
    requires at + |e| + |tail| <= |buf| && buf[at..at + |e| + |tail|] == e + tail
    ensures Decode(buf, at) == Some((v, |e|))
    ensures buf[at + |e|..at + |e| + |tail|] == tail
  {
    SplitWindow(buf, at, e, tail);
    DecodeEncode(v, buf, at);
  }

  lemma HeadTail<T>(s: seq<T>)
    requires s != []
    ensures [s[0]] + s[1..] == s
  {
  }

  lemma PrefixCons<T>(x: T, s: seq<T>, k: nat)
    requires 0 < k <= |s| + 1
    ensures ([x] + s)[..k] == [x] + s[..k - 1]
  {
  }

  /** A window of the buffer holding `a + b` holds `a` and then `b`. */
  lemma SplitWindow(buf: seq<byte>, at: nat, a: seq<byte>, b: seq<byte>)
    requires at + |a| + |b| <= |buf| && buf[at..at + |a| + |b|] == a + b
    ensures buf[at..at + |a|] == a && buf[at + |a|..at + |a| + |b|] == b
  {
    var window := buf[at..at + |a| + |b|];
    assert buf[at..at + |a|] == window[..|a|];
    assert buf[at + |a|..at + |a| + |b|] == window[|a|..];
  }

  /** A shorter run decodes the first values of a longer one. */
  lemma {:induction false} DecodeRunPrefix(buf: seq<byte>, at: nat, total: nat, k: nat)
    requires k <= total && k <= |DecodeRun(buf, at, total).values|
    ensures DecodeRun(buf, at, k).values == DecodeRun(buf, at, total).values[..k]
    decreases k
  {
    if k > 0 {
      var v, n := Decode(buf, at).value.0, Decode(buf, at).value.1;
      DecodeRunPrefix(buf, at + n, total - 1, k - 1);
      PrefixCons(v, DecodeRun(buf, at + n, total - 1).values, k);
    }
  }

  /** Asking for more values never decodes fewer. */
  lemma {:induction false} DecodeRunShorter(buf: seq<byte>, at: nat, k: nat, total: nat)
    requires k <= total
    ensures |DecodeRun(buf, at, k).values| <= |DecodeRun(buf, at, total).values|
    decreases k
  {
    if k > 0 && Decode(buf, at).Some? {
      DecodeRunShorter(buf, at + Decode(buf, at).value.1, k - 1, total - 1);
    }
  }

  /** Asking for one more value decodes one more varint where the run ended, if it can. */
  lemma {:induction false} DecodeRunSnoc(buf: seq<byte>, at: nat, k: nat)
    requires |DecodeRun(buf, at, k).values| == k
    ensures var r := DecodeRun(buf, at, k);
      DecodeRun(buf, at, k + 1) ==
        match Decode(buf, r.end)
        case None => r
        case Some((v, n)) => Run(r.values + [v], r.end + n)
    decreases k
  {
    if k > 0 {
      var v, n := Decode(buf, at).value.0, Decode(buf, at).value.1;
      DecodeRunSnoc(buf, at + n, k - 1);
      var rest := DecodeRun(buf, at + n, k - 1);
      match Decode(buf, rest.end)
      case None =>
      case Some((w, m)) =>
        Associative([v], rest.values, [w]);
    }
  }

  /**
    The step the bucket loops take: with the first k values of a run decoded and
    the read position just past them, the next decode either yields value k and
    moves to where k + 1 values end, or fails exactly when the run is short there.
  */
  lemma {:induction false} DecodeRunAt(buf: seq<byte>, at: nat, total: nat, k: nat)
    requires k <= total && k <= |DecodeRun(buf, at, total).values|
    ensures DecodeRun(buf, at, k).values == DecodeRun(buf, at, total).values[..k]
    ensures k < total && k < |DecodeRun(buf, at, total).values| ==>
      var p := DecodeRun(buf, at, k).end;
      Decode(buf, p).Some? && Decode(buf, p).value.0 == DecodeRun(buf, at, total).values[k]
      && DecodeRun(buf, at, k + 1).end == p + Decode(buf, p).value.1
    ensures k < total && k == |DecodeRun(buf, at, total).values| ==>
      Decode(buf, DecodeRun(buf, at, k).end).None?
  {
    DecodeRunPrefix(buf, at, total, k);
    if k < total {
      DecodeRunSnoc(buf, at, k);
      DecodeRunShorter(buf, at, k + 1, total);
      if k < |DecodeRun(buf, at, total).values| {
        DecodeRunPrefix(buf, at, total, k + 1);
      }
    }
  }
}
