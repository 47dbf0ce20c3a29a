// A log as a sequence of self-delimiting frames: what holds of any format whose
// reader undoes its writer and rejects a frame that is cut short.
module Framing {
  import opened Bytes

  datatype Parsed<+R> = Parsed(record: R, consumed: nat) | Rejected | Panicked

  datatype Codec<!R> = Codec(enc: R -> seq<byte>, parse: seq<byte> -> Parsed<R>, fits: R -> bool)

  datatype Log<+R> = Log(records: seq<R>) | LogPanicked

  /** The frames of the records, one after the other. */
  function Concat<R>(c: Codec<R>, rs: seq<R>): seq<byte> {
    if rs == [] then [] else c.enc(rs[0]) + Concat(c, rs[1..])
  }

  /** Read frames until the bytes run out or one is rejected. */
  function ReadAll<R>(c: Codec<R>, buf: seq<byte>): Log<R> {
    if buf == [] then Log([])
    else
      match c.parse(buf)
      case Rejected => Log([])
      case Panicked => LogPanicked
      case Parsed(r, n) =>
        if n == 0 || n > |buf| then LogPanicked
        else Prepend(r, ReadAll(c, buf[n..]))
  }

  function Prepend<R>(r: R, log: Log<R>): Log<R> {
    match log case LogPanicked => LogPanicked case Log(rs) => Log([r] + rs)
  }

  ghost predicate Undoes<R(!new)>(c: Codec<R>, r: R) {
    c.fits(r) ==>
      && |c.enc(r)| > 0
      && (forall rest {:trigger c.enc(r) + rest} :: c.parse(c.enc(r) + rest) == Parsed(r, |c.enc(r)|))
      && (forall torn {:trigger c.parse(torn)} :: torn < c.enc(r) ==> c.parse(torn) == Rejected)
  }

  /** Reading undoes writing, and a frame cut short is rejected. */
  ghost predicate Format<R(!new)>(c: Codec<R>) {
    forall r {:trigger Undoes(c, r)} :: Undoes(c, r)
  }

  ghost predicate AllFit<R>(c: Codec<R>, rs: seq<R>) {
    forall i :: 0 <= i < |rs| ==> c.fits(rs[i])
  }

  lemma {:induction false} ConcatParts<R>(c: Codec<R>, a: seq<R>, b: seq<R>)
    ensures Concat(c, a + b) == Concat(c, a) + Concat(c, b)
  {
    if a == [] {
      assert a + b == b;
    } else {
      var e, x, y := c.enc(a[0]), Concat(c, a[1..]), Concat(c, b);
      ConcatParts(c, a[1..], b);
      assert (a + b)[0] == a[0] && (a + b)[1..] == a[1..] + b;
      Associates(e, x, y);
    }
  }

  lemma Associates(x: seq<byte>, y: seq<byte>, z: seq<byte>)
    ensures x + (y + z) == x + y + z
  {
  }

  lemma ReadFirst<R(!new)>(c: Codec<R>, r: R, rest: seq<byte>)
    requires Format(c) && c.fits(r)
    ensures ReadAll(c, c.enc(r) + rest) == Prepend(r, ReadAll(c, rest)) && |c.enc(r)| > 0
  {
    assert Undoes(c, r);
    var e := c.enc(r);
    assert (e + rest)[|e|..] == rest;
  }

  lemma {:induction false} ReadOn<R(!new)>(c: Codec<R>, rs: seq<R>, rest: seq<byte>)
    requires Format(c) && AllFit(c, rs)
    ensures ReadAll(c, Concat(c, rs) + rest) ==
            if ReadAll(c, rest).Log? then Log(rs + ReadAll(c, rest).records) else LogPanicked
  {
    if rs == [] {
      assert Concat(c, rs) + rest == rest;
    } else {
      ReadOn(c, rs[1..], rest);
      Associates(c.enc(rs[0]), Concat(c, rs[1..]), rest);
      ReadFirst(c, rs[0], Concat(c, rs[1..]) + rest);
    }
  }

  // Whole frames are read back; one torn off behind them is dropped.
  lemma ReadBack<R(!new)>(c: Codec<R>, rs: seq<R>, r: R, torn: seq<byte>)
    requires Format(c) && AllFit(c, rs) && c.fits(r) && torn < c.enc(r)
    ensures ReadAll(c, Concat(c, rs) + torn) == Log(rs)
  {
    assert Undoes(c, r);
    ReadOn(c, rs, torn);
    assert c.parse(torn) == Rejected;
  }

  lemma TakeOne<R>(c: Codec<R>, rs: seq<R>, j: nat)
    requires j < |rs|
    ensures Concat(c, rs[..j + 1]) == c.enc(rs[0]) + Concat(c, rs[1..][..j])
  {
    assert rs[..j + 1][0] == rs[0] && rs[..j + 1][1..] == rs[1..][..j];
  }

  // Wherever the bytes are cut, a prefix of the records is read: those that are whole.
  lemma {:induction false} CutAnywhere<R(!new)>(c: Codec<R>, rs: seq<R>, n: nat)
    returns (k: nat)
    requires Format(c) && AllFit(c, rs) && n <= |Concat(c, rs)|
    ensures k <= |rs| && |Concat(c, rs[..k])| <= n && ReadAll(c, Concat(c, rs)[..n]) == Log(rs[..k])
    ensures k < |rs| ==> n < |Concat(c, rs[..k + 1])|
  {
    if rs == [] {
      k := 0;
      return;
    }
    var e := c.enc(rs[0]);
    if n < |e| {
      k := 0;
      CutFirst(c, rs, n);
      TakeOne(c, rs, 0);
    } else {
      var j := CutAnywhere(c, rs[1..], n - |e|);
      k := j + 1;
      CutLater(c, rs, n, j);
      TakeOne(c, rs, j);
      if k < |rs| { TakeOne(c, rs, k); }
    }
  }

  lemma CutFirst<R(!new)>(c: Codec<R>, rs: seq<R>, n: nat)
    requires Format(c) && AllFit(c, rs) && rs != [] && n < |c.enc(rs[0])|
    ensures ReadAll(c, Concat(c, rs)[..n]) == Log(rs[..0])
  {
    var e := c.enc(rs[0]);
    assert Undoes(c, rs[0]);
    assert Concat(c, rs)[..n] == e[..n] && c.parse(e[..n]) == Rejected;
  }

  lemma CutLater<R(!new)>(c: Codec<R>, rs: seq<R>, n: nat, j: nat)
    requires Format(c) && AllFit(c, rs) && j < |rs| && |c.enc(rs[0])| <= n <= |Concat(c, rs)|
    requires ReadAll(c, Concat(c, rs[1..])[..n - |c.enc(rs[0])|]) == Log(rs[1..][..j])
    ensures ReadAll(c, Concat(c, rs)[..n]) == Log(rs[..j + 1])
  {
    var e := c.enc(rs[0]);
    var rest := Concat(c, rs[1..])[..n - |e|];
    assert Concat(c, rs)[..n] == e + rest;
    ReadFirst(c, rs[0], rest);
    assert rs[..j + 1] == [rs[0]] + rs[1..][..j];
  }

  // A cut behind a point keeps every record that ends before that point.
  lemma CutKeeps<R(!new)>(c: Codec<R>, rs: seq<R>, done: nat, n: nat)
    returns (k: nat)
    requires Format(c) && AllFit(c, rs) && done <= |rs|
    requires |Concat(c, rs[..done])| <= n <= |Concat(c, rs)|
    ensures done <= k <= |rs| && ReadAll(c, Concat(c, rs)[..n]) == Log(rs[..k])
  {
    k := CutAnywhere(c, rs, n);
    if k < done {
      assert rs[..done] == rs[..k + 1] + rs[k + 1..done];
      ConcatParts(c, rs[..k + 1], rs[k + 1..done]);
    }
  }

  /** The bytes are the frames that are read from them, and nothing else. */
  ghost predicate Whole<R>(c: Codec<R>, bytes: seq<byte>) {
    ReadAll(c, bytes).Log? && bytes == Concat(c, ReadAll(c, bytes).records)
  }

  // The same for frames appended behind others that were found whole.
  lemma CutBehind<R(!new)>(c: Codec<R>, found: seq<byte>, rs: seq<R>, done: nat, n: nat)
    returns (k: nat)
    requires Format(c) && Whole(c, found) && AllFit(c, ReadAll(c, found).records) && AllFit(c, rs) && done <= |rs|
    requires |found + Concat(c, rs[..done])| <= n <= |found + Concat(c, rs)|
    ensures done <= k <= |rs|
    ensures ReadAll(c, (found + Concat(c, rs))[..n]) == Log(ReadAll(c, found).records + rs[..k])
  {
    var before := ReadAll(c, found).records;
    k := CutBehindFrames(c, before, rs, done, n);
  }

  lemma CutBehindFrames<R(!new)>(c: Codec<R>, before: seq<R>, rs: seq<R>, done: nat, n: nat)
    returns (k: nat)
    requires Format(c) && AllFit(c, before) && AllFit(c, rs) && done <= |rs|
    requires |Concat(c, before) + Concat(c, rs[..done])| <= n <= |Concat(c, before) + Concat(c, rs)|
    ensures done <= k <= |rs|
    ensures ReadAll(c, (Concat(c, before) + Concat(c, rs))[..n]) == Log(before + rs[..k])
  {
    ConcatParts(c, before, rs);
    ConcatParts(c, before, rs[..done]);
    var all := before + rs;
    TakeBehind(before, rs, done);
    var j := CutKeeps(c, all, |before| + done, n);
    k := j - |before|;
    TakeBehind(before, rs, k);
  }

  lemma TakeBehind<R>(a: seq<R>, b: seq<R>, j: nat)
    requires j <= |b|
    ensures (a + b)[..|a| + j] == a + b[..j]
  {
  }

  // Frames appended behind a torn one stay unread while the reader still waits for its end.
  lemma BehindTornUnread<R(!new)>(c: Codec<R>, rs: seq<R>, tail: seq<byte>)
    requires Format(c) && AllFit(c, rs) && c.parse(tail) == Rejected
    ensures ReadAll(c, Concat(c, rs) + tail) == Log(rs)
  {
    ReadOn(c, rs, tail);
  }
}
