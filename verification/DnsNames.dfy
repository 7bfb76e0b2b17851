// Domain names in DNS messages: labels with a length in front (RFC 1035,
// section 3.1), and pointers to names earlier in the message (section 4.1.4).

module DnsNames {
  import opened Basics
  import opened MachineWords

  type Bytes = seq<byte>

  const DOT: byte := 46

  // ------------------------------------------------------------ labels and hosts

  // A label with its length in front.
  function LabelBytes(l: Bytes): (s: Bytes)
    ensures |s| == 1 + |l|
  {
    [|l| % 256] + l
  }

  // The labels with their lengths in front, without the end mark.
  function Raw(labels: seq<Bytes>): Bytes {
    if labels == [] then [] else LabelBytes(labels[0]) + Raw(labels[1..])
  }

  function Encoded(labels: seq<Bytes>): Bytes {
    Raw(labels) + [0]
  }

  // Each label with a dot behind it.
  function Dotted(labels: seq<Bytes>): Bytes {
    if labels == [] then [] else labels[0] + [DOT] + Dotted(labels[1..])
  }

  // The text of a name: its labels with dots between them.
  function Host(labels: seq<Bytes>): Bytes {
    var d := Dotted(labels);
    if d == [] then [] else d[..|d| - 1]
  }

  // The first dot at from or behind it.
  function NextDot(s: Bytes, from: nat): (i: nat)
    requires from <= |s|
    ensures from <= i <= |s|
    ensures i < |s| ==> s[i] == DOT
    ensures forall k :: from <= k < i ==> s[k] != DOT
    decreases |s| - from
  {
    if from == |s| || s[from] == DOT then from else NextDot(s, from + 1)
  }

  // The labels from a place on, in a text where every label has a dot behind it.
  function Split(s: Bytes, from: nat): seq<Bytes>
    requires from <= |s|
    decreases |s| - from
  {
    var i := NextDot(s, from);
    if i == |s| then [] else [s[from..i]] + Split(s, i + 1)
  }

  // A host name as the user gives it.
  function LabelsOf(host: Bytes): seq<Bytes> {
    Split(host + [DOT], 0)
  }

  // A label that the wire format can carry and read_name will not mistake for
  // an end mark or a pointer.
  predicate Label(l: Bytes) {
    0 < |l| < 64 && Plain(l)
  }

  predicate Plain(l: Bytes) {
    forall k :: 0 <= k < |l| ==> 0 < l[k] < 192
  }

  predicate Labels(labels: seq<Bytes>) {
    forall k :: 0 <= k < |labels| ==> Label(labels[k])
  }

  lemma DottedStep(l: Bytes, rest: seq<Bytes>)
    ensures Dotted([l] + rest) == l + [DOT] + Dotted(rest)
  {
    assert ([l] + rest)[1..] == rest;
  }

  lemma {:induction false} SplitDotted(s: Bytes, from: nat)
    requires from <= |s| && (from == |s| || s[|s| - 1] == DOT)
    ensures Dotted(Split(s, from)) == s[from..]
    decreases |s| - from
  {
    var i := NextDot(s, from);
    if from < |s| {
      assert i <= |s| - 1;
      SplitDotted(s, i + 1);
      DottedStep(s[from..i], Split(s, i + 1));
      SliceAround(s, from, i);
    }
  }

  lemma SliceAround(s: Bytes, from: nat, i: nat)
    requires from <= i < |s|
    ensures s[from..i] + [s[i]] + s[i + 1..] == s[from..]
  {
  }

  // Splitting a host into labels loses nothing.
  lemma HostOfLabels(host: Bytes)
    ensures Host(LabelsOf(host)) == host
  {
    var s := host + [DOT];
    SplitDotted(s, 0);
    assert s[0..] == s && s[..|host|] == host;
  }

  lemma {:induction false} RawLength(labels: seq<Bytes>)
    ensures |Raw(labels)| == |Dotted(labels)|
    decreases |labels|
  {
    if labels != [] {
      RawLength(labels[1..]);
    }
  }

  // Byte p of the wire form of a text in which every label has a dot behind it:
  // where a label begins its length, and behind it the characters.
  function WireByte(s: Bytes, p: nat): byte
    requires p < |s|
  {
    if p == 0 || s[p - 1] == DOT then (NextDot(s, p) - p) % 256 else s[p - 1]
  }

  lemma SplitOnce(s: Bytes, from: nat, i: nat)
    requires from <= i < |s| && i == NextDot(s, from)
    ensures Raw(Split(s, from)) == LabelBytes(s[from..i]) + Raw(Split(s, i + 1))
  {
    var l, rest := s[from..i], Split(s, i + 1);
    assert Split(s, from) == [l] + rest && ([l] + rest)[1..] == rest;
  }

  // In the first label, or behind its dot.
  lemma InPiece(s: Bytes, from: nat, i: nat, rest: Bytes, p: nat)
    requires from <= p < |s| && from <= i < |s| && i == NextDot(s, from) && (from == 0 || s[from - 1] == DOT)
    ensures |LabelBytes(s[from..i]) + rest| == i + 1 - from + |rest|
    ensures p <= i ==> (LabelBytes(s[from..i]) + rest)[p - from] == WireByte(s, p)
    ensures i < p <= i + |rest| ==> (LabelBytes(s[from..i]) + rest)[p - from] == rest[p - i - 1]
  {
  }

  lemma RawSplitLength(s: Bytes, from: nat)
    requires from <= |s| && (from == |s| || s[|s| - 1] == DOT)
    ensures |Raw(Split(s, from))| == |s| - from
  {
    RawLength(Split(s, from));
    SplitDotted(s, from);
  }

  predicate IsWire(raw: Bytes, s: Bytes, from: nat, p: nat)
    requires from <= p < |s|
  {
    |raw| == |s| - from && raw[p - from] == WireByte(s, p)
  }

  lemma {:induction false} RawSplit(s: Bytes, from: nat, p: nat, raw: Bytes)
    requires from <= p < |s| && s[|s| - 1] == DOT && (from == 0 || s[from - 1] == DOT) && raw == Raw(Split(s, from))
    ensures IsWire(raw, s, from, p)
    decreases |s| - from
  {
    var i := NextDot(s, from);
    assert i < |s|;
    var rest := Raw(Split(s, i + 1));
    RawSplitLength(s, from);
    RawSplitLength(s, i + 1);
    SplitOnce(s, from, i);
    InPiece(s, from, i, rest, p);
    if p > i {
      RawSplit(s, i + 1, p, rest);
    }
  }

  // MAIN: the wire form of a host: it takes two bytes more than the text and
  // ends in 0; each other byte is the character before it, or, where a label
  // begins, the number of characters up to the next dot or the end.
  lemma WireForm(host: Bytes, p: nat)
    requires p <= |host|
    ensures var w := Encoded(LabelsOf(host));
      && |w| == |host| + 2 && w[|host| + 1] == 0
      && w[p] == if p == 0 || host[p - 1] == DOT then (NextDot(host, p) - p) % 256 else host[p - 1]
  {
    var s := host + [DOT];
    RawSplit(s, 0, p, Raw(Split(s, 0)));
    assert s[NextDot(s, p)] == DOT && (NextDot(host, p) < |host| ==> s[NextDot(host, p)] == DOT);
    assert forall k :: p <= k < NextDot(host, p) ==> s[k] != DOT;
    assert forall k :: p <= k < NextDot(s, p) ==> s[k] != DOT;
  }

  // ------------------------------------------------------------ names in messages

  // Where a two-byte pointer points: the offset in the low 14 bits.
  function Target(msg: Bytes, pos: nat): (t: nat)
    requires pos + 1 < |msg| && msg[pos] >= 192
    ensures t < 16384 && msg[pos] == 192 + t / 256 && msg[pos + 1] == t % 256
  {
    var high, low: int := msg[pos], msg[pos + 1];
    high * 256 + low - 49152
  }

  // A name at pos: labels, then an end mark or a pointer to a name that begins
  // before bound, where the present run of labels began.
  ghost predicate WellFormed(msg: Bytes, pos: nat, bound: nat)
    decreases bound, |msg| - pos
  {
    && pos < |msg|
    && (msg[pos] == 0
        || (msg[pos] >= 192 && pos + 1 < |msg| && Target(msg, pos) < bound && WellFormed(msg, Target(msg, pos), Target(msg, pos)))
        || (0 < msg[pos] < 64 && pos + 1 + msg[pos] <= |msg| && Plain(msg[pos + 1..pos + 1 + msg[pos]])
            && WellFormed(msg, pos + 1 + msg[pos], bound)))
  }

  // The labels that the name at pos denotes.
  ghost function Denoted(msg: Bytes, pos: nat, bound: nat): seq<Bytes>
    requires WellFormed(msg, pos, bound)
    decreases bound, |msg| - pos
  {
    if msg[pos] == 0 then []
    else if msg[pos] >= 192 then Denoted(msg, Target(msg, pos), Target(msg, pos))
    else [msg[pos + 1..pos + 1 + msg[pos]]] + Denoted(msg, pos + 1 + msg[pos], bound)
  }

  // How many bytes of the message the name takes where it stands.
  ghost function Taken(msg: Bytes, pos: nat, bound: nat): nat
    requires WellFormed(msg, pos, bound)
    decreases bound, |msg| - pos
  {
    if msg[pos] == 0 then 1
    else if msg[pos] >= 192 then 2
    else 1 + msg[pos] + Taken(msg, pos + 1 + msg[pos], bound)
  }

  lemma {:induction false} DenotesLabels(msg: Bytes, pos: nat, bound: nat)
    requires WellFormed(msg, pos, bound)
    ensures Labels(Denoted(msg, pos, bound))
    decreases bound, |msg| - pos
  {
    if msg[pos] == 0 {
    } else if msg[pos] >= 192 {
      DenotesLabels(msg, Target(msg, pos), Target(msg, pos));
    } else {
      DenotesLabels(msg, pos + 1 + msg[pos], bound);
    }
  }

  lemma SliceOfSlice(msg: Bytes, pos: nat, e: Bytes, from: nat, to: nat)
    requires pos + |e| <= |msg| && msg[pos..pos + |e|] == e && from <= to <= |e|
    ensures msg[pos + from..pos + to] == e[from..to]
  {
    var a, b := msg[pos + from..pos + to], e[from..to];
    forall k | 0 <= k < |a|
      ensures a[k] == b[k]
    {
      assert e[from + k] == msg[pos..pos + |e|][from + k];
    }
  }

  // One label in front of a name.
  lemma LabelStep(msg: Bytes, pos: nat, bound: nat, l: Bytes)
    requires Label(l) && pos + 1 + |l| <= |msg| && msg[pos] == |l| && msg[pos + 1..pos + 1 + |l|] == l
    requires WellFormed(msg, pos + 1 + |l|, bound)
    ensures WellFormed(msg, pos, bound)
    ensures Denoted(msg, pos, bound) == [l] + Denoted(msg, pos + 1 + |l|, bound)
    ensures Taken(msg, pos, bound) == 1 + |l| + Taken(msg, pos + 1 + |l|, bound)
  {
  }

  // The encoded form of these labels stands at pos.
  predicate EncodedAt(msg: Bytes, pos: nat, labels: seq<Bytes>) {
    pos + |Encoded(labels)| <= |msg| && msg[pos..pos + |Encoded(labels)|] == Encoded(labels)
  }

  lemma EncodedHead(labels: seq<Bytes>)
    requires labels != [] && |labels[0]| < 256
    ensures Encoded(labels) == [|labels[0]|] + labels[0] + Encoded(labels[1..])
  {
    var l := labels[0];
    assert Raw(labels) == LabelBytes(l) + Raw(labels[1..]);
  }

  // Three pieces of a string stand one after another.
  lemma Pieces(msg: Bytes, pos: nat, x: byte, l: Bytes, rest: Bytes)
    requires var e := [x] + l + rest;
      pos + |e| <= |msg| && msg[pos..pos + |e|] == e
    ensures msg[pos] == x && msg[pos + 1..pos + 1 + |l|] == l
    ensures msg[pos + 1 + |l|..pos + 1 + |l| + |rest|] == rest
  {
    var e := [x] + l + rest;
    SliceOfSlice(msg, pos, e, 1, 1 + |l|);
    SliceOfSlice(msg, pos, e, 1 + |l|, |e|);
    assert msg[pos..pos + |e|][0] == x;
    assert e[1..1 + |l|] == l && e[1 + |l|..] == rest;
  }

  lemma EncodedStep(msg: Bytes, pos: nat, labels: seq<Bytes>)
    requires labels != [] && |labels[0]| < 256 && EncodedAt(msg, pos, labels)
    ensures var l := labels[0];
      && |Encoded(labels)| == 1 + |l| + |Encoded(labels[1..])|
      && pos + 1 + |l| <= |msg| && msg[pos] == |l| && msg[pos + 1..pos + 1 + |l|] == l
      && EncodedAt(msg, pos + 1 + |l|, labels[1..])
  {
    EncodedHead(labels);
    Pieces(msg, pos, |labels[0]|, labels[0], Encoded(labels[1..]));
  }

  // The labels before the first empty one.
  function UpToEmpty(labels: seq<Bytes>): seq<Bytes> {
    if labels == [] || labels[0] == [] then [] else [labels[0]] + UpToEmpty(labels[1..])
  }

  // Letters that read_name does not mistake, in labels of any length that fits.
  predicate Spelled(labels: seq<Bytes>) {
    forall k :: 0 <= k < |labels| ==> |labels[k]| < 64 && Plain(labels[k])
  }

  datatype Name = Name(labels: seq<Bytes>, taken: nat)

  // The labels that the name at pos denotes, if there is one, and its length there.
  ghost function NameAt(msg: Bytes, pos: nat, bound: nat): Option<Name> {
    if WellFormed(msg, pos, bound) then Some(Name(Denoted(msg, pos, bound), Taken(msg, pos, bound))) else None
  }

  lemma EndMark(msg: Bytes, pos: nat, bound: nat)
    requires pos < |msg| && msg[pos] == 0
    ensures NameAt(msg, pos, bound) == Some(Name([], 1))
  {
  }

  // The bytes behind a length.
  function LabelAt(msg: Bytes, pos: nat): Option<Bytes> {
    if pos < |msg| && pos + 1 + msg[pos] <= |msg| then Some(msg[pos + 1..pos + 1 + msg[pos]]) else None
  }

  lemma LabelInFront(msg: Bytes, pos: nat, bound: nat, l: Bytes, labels: seq<Bytes>, taken: nat)
    requires Label(l) && LabelAt(msg, pos) == Some(l)
    requires NameAt(msg, pos + 1 + |l|, bound) == Some(Name(labels, taken))
    ensures NameAt(msg, pos, bound) == Some(Name([l] + labels, 1 + |l| + taken))
  {
    LabelStep(msg, pos, bound, l);
  }

  // The labels with their lengths and the end mark, one by one.
  predicate Lies(msg: Bytes, pos: nat, labels: seq<Bytes>)
    decreases |labels|
  {
    if labels == [] then pos < |msg| && msg[pos] == 0
    else pos < |msg| && msg[pos] == |labels[0]| && LabelAt(msg, pos) == Some(labels[0]) && Lies(msg, pos + 1 + |labels[0]|, labels[1..])
  }

  function Size(labels: seq<Bytes>): nat {
    if labels == [] then 1 else 1 + |labels[0]| + Size(labels[1..])
  }

  lemma {:induction false} EncodedLies(msg: Bytes, pos: nat, labels: seq<Bytes>)
    requires Spelled(labels) && EncodedAt(msg, pos, labels)
    ensures Lies(msg, pos, labels) && Size(labels) == |Encoded(labels)|
    decreases |labels|
  {
    if labels == [] {
      assert msg[pos..pos + 1][0] == 0;
    } else {
      EncodedStep(msg, pos, labels);
      EncodedLies(msg, pos + 1 + |labels[0]|, labels[1..]);
    }
  }

  lemma {:induction false} LabelsLie(msg: Bytes, pos: nat, bound: nat, labels: seq<Bytes>) returns (taken: nat)
    requires Spelled(labels) && Lies(msg, pos, labels)
    ensures NameAt(msg, pos, bound) == Some(Name(UpToEmpty(labels), taken))
    ensures taken <= Size(labels) && (taken == Size(labels) <==> Labels(labels))
    decreases |labels|
  {
    if labels == [] {
      EndMark(msg, pos, bound);
      taken := 1;
    } else if labels[0] == [] {
      EndMark(msg, pos, bound);
      assert !Label(labels[0]);
      taken := 1;
    } else {
      taken := LabelsLie(msg, pos + 1 + |labels[0]|, bound, labels[1..]);
      LabelInFront(msg, pos, bound, labels[0], UpToEmpty(labels[1..]), taken);
      LabelsTail(labels);
      taken := 1 + |labels[0]| + taken;
    }
  }

  // What set_domain writes, anywhere in a message, denotes the labels before
  // the first empty one; that one ends the name, and what is behind it is lost.
  lemma EmptyLabelEnds(msg: Bytes, pos: nat, bound: nat, labels: seq<Bytes>)
    requires Spelled(labels) && EncodedAt(msg, pos, labels)
    ensures WellFormed(msg, pos, bound) && Denoted(msg, pos, bound) == UpToEmpty(labels)
    ensures Taken(msg, pos, bound) <= |Encoded(labels)|
    ensures Taken(msg, pos, bound) == |Encoded(labels)| <==> Labels(labels)
  {
    EncodedLies(msg, pos, labels);
    var _ := LabelsLie(msg, pos, bound, labels);
  }

  lemma LabelsTail(labels: seq<Bytes>)
    requires labels != [] && Label(labels[0])
    ensures Labels(labels) <==> Labels(labels[1..])
  {
    if Labels(labels[1..]) {
      forall k | 0 <= k < |labels|
        ensures Label(labels[k])
      {
        assert k > 0 ==> labels[k] == labels[1..][k - 1];
      }
    }
  }

  lemma {:induction false} NoneEmpty(labels: seq<Bytes>)
    requires Labels(labels)
    ensures UpToEmpty(labels) == labels
    decreases |labels|
  {
    if labels != [] {
      assert Label(labels[0]);
      NoneEmpty(labels[1..]);
    }
  }

  // MAIN: what set_domain writes, anywhere in a message, denotes the labels it
  // was given and takes as many bytes as were written.
  lemma EncodedDenotes(msg: Bytes, pos: nat, bound: nat, labels: seq<Bytes>)
    requires Labels(labels) && EncodedAt(msg, pos, labels)
    ensures WellFormed(msg, pos, bound) && Denoted(msg, pos, bound) == labels
    ensures Taken(msg, pos, bound) == |Encoded(labels)|
  {
    assert Spelled(labels) by {
      forall k | 0 <= k < |labels|
        ensures |labels[k]| < 64 && Plain(labels[k])
      {
        assert Label(labels[k]);
      }
    }
    EmptyLabelEnds(msg, pos, bound, labels);
    NoneEmpty(labels);
  }

  // ----------------------------------------------------------------- set_domain

  lemma {:induction false} RawConcat(a: seq<Bytes>, b: seq<Bytes>)
    ensures Raw(a + b) == Raw(a) + Raw(b)
    decreases |a|
  {
    if a == [] {
      assert a + b == b;
    } else {
      assert (a + b)[1..] == a[1..] + b;
      RawConcat(a[1..], b);
    }
  }

  // More written right behind what has been written.
  lemma SpliceOn(before: Bytes, at: nat, data: Bytes, more: Bytes)
    requires at + |data| + |more| <= |before|
    ensures Splice(Splice(before, at, data), at + |data|, more) == Splice(before, at, data + more)
  {
  }

  // Writes one label at end, its length first.
  method PutLabel(dns: array<byte>, end: nat, host: Bytes, lock: nat, i: nat, ghost after: Bytes)
    requires lock <= i <= |host| && i - lock < 256 && end + 1 + (i - lock) <= dns.Length
    requires after == Splice(dns[..], end, LabelBytes(host[lock..i]))
    modifies dns
    ensures dns[..] == after
  {
    dns[end] := i - lock;
    var l := lock;
    while l < i
      invariant lock <= l <= i && dns[end] == i - lock
      invariant forall q :: end < q <= end + (l - lock) ==> dns[q] == host[lock + (q - end - 1)]
      invariant forall q :: 0 <= q < dns.Length && !(end <= q <= end + (l - lock)) ==> dns[q] == old(dns[q])
    {
      dns[end + 1 + (l - lock)] := host[l];
      l := l + 1;
    }
    ghost var s := Splice(old(dns[..]), end, LabelBytes(host[lock..i]));
    assert forall q :: 0 <= q < dns.Length ==> dns[q] == s[q];
  }

  lemma RawOne(done: seq<Bytes>, l: Bytes)
    ensures Raw(done + [l]) == Raw(done) + LabelBytes(l)
  {
    RawConcat(done, [l]);
    assert [l][1..] == [] && Raw([l]) == LabelBytes(l);
  }

  lemma Regroup(a: seq<Bytes>, x: Bytes, b: seq<Bytes>)
    ensures a + ([x] + b) == a + [x] + b
  {
  }

  // Writes the encoded name into dns from at on; the source's copy of the host
  // has room for 30 characters.
  method SetDomain(dns: array<byte>, at: nat, hostp: Bytes) returns (end: nat)
    requires |hostp| <= 30 && at + |hostp| + 2 <= dns.Length
    modifies dns
    ensures end == at + |Encoded(LabelsOf(hostp))| <= dns.Length
    ensures dns[..] == Splice(old(dns[..]), at, Encoded(LabelsOf(hostp)))
  {
    ghost var before, raw := dns[..], Raw(LabelsOf(hostp));
    end := PutLabels(dns, at, hostp + [DOT]);
    SpliceOn(before, at, raw, [0]);
    dns[end] := 0;
    assert dns[..] == Splice(Splice(before, at, raw), at + |raw|, [0]);
    end := end + 1;
  }

  // The labels done and those from lock on are all, and buf is before with the
  // labels done written at at.
  ghost predicate Copied(host: Bytes, all: seq<Bytes>, done: seq<Bytes>, lock: nat, before: Bytes, at: nat, buf: Bytes) {
    && lock <= |host| && at + |host| <= |before|
    && all == done + Split(host, lock) && |Raw(done)| == lock && buf == Splice(before, at, Raw(done))
  }

  lemma CopiedOne(host: Bytes, all: seq<Bytes>, done: seq<Bytes>, lock: nat, before: Bytes, at: nat, buf: Bytes, i: nat)
      returns (done': seq<Bytes>, buf': Bytes)
    requires Copied(host, all, done, lock, before, at, buf) && lock <= i < |host| && NextDot(host, lock) == i
    ensures |buf| == |before| && at + i + 1 <= |buf| && buf' == Splice(buf, at + lock, LabelBytes(host[lock..i]))
    ensures Copied(host, all, done', i + 1, before, at, buf')
  {
    var l := host[lock..i];
    done', buf' := done + [l], Splice(buf, at + lock, LabelBytes(l));
    RawOne(done, l);
    Regroup(done, l, Split(host, i + 1));
    SpliceOn(before, at, Raw(done), LabelBytes(l));
  }

  // The loop of set_domain: every label has a dot behind it.
  method PutLabels(dns: array<byte>, at: nat, host: Bytes) returns (end: nat)
    requires 0 < |host| < 256 && host[|host| - 1] == DOT && at + |host| <= dns.Length
    modifies dns
    ensures end == at + |host| == at + |Raw(Split(host, 0))|
    ensures dns[..] == Splice(old(dns[..]), at, Raw(Split(host, 0)))
  {
    ghost var before, buf, all, done: seq<Bytes> := dns[..], dns[..], Split(host, 0), [];
    assert done + all == all;
    var lock, i := 0, 0;
    end := at;
    while i < |host|
      invariant lock <= i <= |host| && end == at + lock && (i == |host| ==> lock == i)
      invariant lock < |host| ==> NextDot(host, lock) == NextDot(host, i)
      invariant Copied(host, all, done, lock, before, at, buf)
      invariant dns[..] == buf
    {
      if host[i] == DOT {
        done, buf := CopiedOne(host, all, done, lock, before, at, buf, i);
        PutLabel(dns, end, host, lock, i, buf);
        end := end + 1 + (i - lock);
        lock := i + 1;
      }
      i := i + 1;
    }
    assert done + [] == done;
  }

  // ------------------------------------------------------------------ read_name

  // Reading has come to read, k bytes before the end of a label.
  ghost predicate InName(msg: Bytes, read: nat, bound: nat, k: nat) {
    read + k <= |msg| && Plain(msg[read..read + k]) && WellFormed(msg, read + k, bound)
  }

  // What is still to be copied from there, and how many bytes it takes there.
  ghost function Ahead(msg: Bytes, read: nat, bound: nat, k: nat): Bytes
    requires InName(msg, read, bound, k)
  {
    msg[read..read + k] + Raw(Denoted(msg, read + k, bound))
  }

  ghost function Left(msg: Bytes, read: nat, bound: nat, k: nat): nat
    requires InName(msg, read, bound, k)
  {
    k + Taken(msg, read + k, bound)
  }

  lemma ReadPlain(msg: Bytes, read: nat, bound: nat, k: nat)
    requires InName(msg, read, bound, k) && k > 0
    ensures read < |msg| && 0 < msg[read] < 192 && InName(msg, read + 1, bound, k - 1)
    ensures Ahead(msg, read, bound, k) == [msg[read]] + Ahead(msg, read + 1, bound, k - 1)
    ensures Left(msg, read, bound, k) == 1 + Left(msg, read + 1, bound, k - 1)
  {
    var l := msg[read..read + k];
    assert l[0] == msg[read] && l == [msg[read]] + msg[read + 1..read + k];
    assert msg[read + 1..read + k] == l[1..];
  }

  lemma ReadLength(msg: Bytes, read: nat, bound: nat)
    requires InName(msg, read, bound, 0) && 0 < msg[read] < 192
    ensures InName(msg, read + 1, bound, msg[read])
    ensures Ahead(msg, read, bound, 0) == [msg[read]] + Ahead(msg, read + 1, bound, msg[read])
    ensures Left(msg, read, bound, 0) == 1 + Left(msg, read + 1, bound, msg[read])
  {
    var l := msg[read + 1..read + 1 + msg[read]];
    var rest := Denoted(msg, read + 1 + msg[read], bound);
    assert Denoted(msg, read, bound) == [l] + rest;
    assert Raw([l] + rest) == LabelBytes(l) + Raw(rest);
    assert msg[read..read] == [];
  }

  // A pointer stands only where a label might begin; so does the end mark.
  lemma BetweenLabels(msg: Bytes, read: nat, bound: nat, k: nat)
    requires InName(msg, read, bound, k)
    ensures read < |msg| && (msg[read] == 0 || msg[read] >= 192 ==> k == 0)
  {
    if k > 0 {
      ReadPlain(msg, read, bound, k);
    }
  }

  lemma ReadPointer(msg: Bytes, read: nat, bound: nat)
    requires InName(msg, read, bound, 0) && msg[read] >= 192
    ensures read + 1 < |msg| && Target(msg, read) < bound && Left(msg, read, bound, 0) == 2
    ensures InName(msg, Target(msg, read), Target(msg, read), 0)
    ensures Ahead(msg, read, bound, 0) == Ahead(msg, Target(msg, read), Target(msg, read), 0)
  {
    var t := Target(msg, read);
    assert WellFormed(msg, t, t);
    assert msg[t..t] == msg[read..read] == [];
  }

  lemma ReadEnd(msg: Bytes, read: nat, bound: nat)
    requires InName(msg, read, bound, 0) && msg[read] == 0
    ensures Ahead(msg, read, bound, 0) == [] && Left(msg, read, bound, 0) == 1
  {
  }

  // A letter of a label, or the length of the next.
  lemma ReadByte(msg: Bytes, read: nat, bound: nat, k: nat) returns (k': nat)
    requires InName(msg, read, bound, k) && read < |msg| && 0 < msg[read] < 192
    ensures InName(msg, read + 1, bound, k')
    ensures Ahead(msg, read, bound, k) == [msg[read]] + Ahead(msg, read + 1, bound, k')
    ensures Left(msg, read, bound, k) == 1 + Left(msg, read + 1, bound, k')
  {
    if k > 0 {
      ReadPlain(msg, read, bound, k);
      k' := k - 1;
    } else {
      ReadLength(msg, read, bound);
      k' := msg[read];
    }
  }

  // Reading has come to read; got is the part of raw it has copied, and left is
  // how many bytes it has still to go there.
  ghost predicate Reading(msg: Bytes, read: nat, bound: nat, k: nat, got: Bytes, raw: Bytes, left: nat) {
    && InName(msg, read, bound, k) && read < |msg|
    && raw == got + Ahead(msg, read, bound, k) && left == Left(msg, read, bound, k)
  }

  lemma CopyByte(msg: Bytes, read: nat, bound: nat, k: nat, got: Bytes, raw: Bytes, left: nat) returns (k': nat, got': Bytes)
    requires Reading(msg, read, bound, k, got, raw, left) && 0 < msg[read] < 192
    ensures |got| < |raw| && got' == got + [msg[read]] && left > 0
    ensures Reading(msg, read + 1, bound, k', got', raw, left - 1)
  {
    k' := ReadByte(msg, read, bound, k);
    got' := got + [msg[read]];
    BetweenLabels(msg, read + 1, bound, k');
    assert got + ([msg[read]] + Ahead(msg, read + 1, bound, k')) == got' + Ahead(msg, read + 1, bound, k');
  }

  lemma FollowPointer(msg: Bytes, read: nat, bound: nat, k: nat, got: Bytes, raw: Bytes, left: nat) returns (left': nat)
    requires Reading(msg, read, bound, k, got, raw, left) && msg[read] >= 192
    ensures read + 1 < |msg| && Target(msg, read) < bound && left == 2
    ensures Reading(msg, Target(msg, read), Target(msg, read), 0, got, raw, left')
  {
    BetweenLabels(msg, read, bound, k);
    ReadPointer(msg, read, bound);
    var t := Target(msg, read);
    BetweenLabels(msg, t, t, 0);
    left' := Left(msg, t, t, 0);
  }

  lemma AllRead(msg: Bytes, read: nat, bound: nat, k: nat, got: Bytes, raw: Bytes, left: nat)
    requires Reading(msg, read, bound, k, got, raw, left) && msg[read] == 0
    ensures got == raw && left == 1
  {
    BetweenLabels(msg, read, bound, k);
    ReadEnd(msg, read, bound);
  }

  lemma StartsReading(msg: Bytes, start: nat, bound: nat)
    requires WellFormed(msg, start, bound)
    ensures Reading(msg, start, bound, 0, [], Raw(Denoted(msg, start, bound)), Taken(msg, start, bound))
  {
    assert msg[start..start] == [];
    assert [] + ([] + Raw(Denoted(msg, start, bound))) == Raw(Denoted(msg, start, bound));
  }

  method PutByte(name: array<byte>, p: nat, x: byte, ghost got: Bytes) returns (p': nat)
    requires p == |got| < name.Length && name[..p] == got
    modifies name
    ensures p' == p + 1 && name[..p'] == got + [x]
  {
    name[p] := x;
    p' := p + 1;
  }

  // The first loop of read_name: follows the pointers and copies the labels.
  method ReadRaw(msg: Bytes, start: nat, name: array<byte>, ghost bound: nat) returns (p: nat, count: nat)
    requires WellFormed(msg, start, bound) && name.Length == 256 && |Raw(Denoted(msg, start, bound))| < 256
    modifies name
    ensures p == |Raw(Denoted(msg, start, bound))| && name[..][..p] == Raw(Denoted(msg, start, bound)) && name[p] == 0
    ensures count == Taken(msg, start, bound)
  {
    ghost var raw, taken := Raw(Denoted(msg, start, bound)), Taken(msg, start, bound);
    ghost var b, k: nat, got: Bytes, left := bound, 0, [], taken;
    StartsReading(msg, start, bound);
    var read: nat, jump := start, false;
    p, count := 0, 1;
    while msg[read] != 0
      invariant Reading(msg, read, b, k, got, raw, left)
      invariant p == |got| && name[..p] == got
      invariant if jump then count + 1 == taken else count + left == taken + 1
      decreases b, |msg| - read
    {
      if msg[read] >= 192 {
        left := FollowPointer(msg, read, b, k, got, raw, left);
        var high, low: int := msg[read], msg[read + 1];
        read := high * 256 + low - 49152;
        b, k := read, 0;
        jump := true;
      } else {
        ghost var k', got' := CopyByte(msg, read, b, k, got, raw, left);
        p := PutByte(name, p, msg[read], got);
        k, got := k', got';
        left := left - 1;
        read := read + 1;
        if !jump {
          count := count + 1;
        }
      }
    }
    AllRead(msg, read, b, k, got, raw, left);
    name[p] := 0;
    assert name[..][..p] == got;
    if jump {
      count := count + 1;
    }
  }

  // The length of the C string at the start of a buffer.
  ghost predicate IsLength(s: Bytes, n: nat) {
    n < |s| && s[n] == 0 && 0 !in s[..n]
  }

  lemma ZeroAhead(s: Bytes, n: nat, len: nat)
    requires n < |s| && IsLength(s, len) && n <= len
    ensures s[n] != 0 ==> n < len
    ensures s[n] == 0 ==> n == len
  {
    if n < len {
      assert s[n] == s[..len][n];
    }
  }

  method Strlen(name: array<byte>, ghost len: nat) returns (n: nat)
    requires IsLength(name[..], len)
    ensures n == len
  {
    n := 0;
    ZeroAhead(name[..], n, len);
    while name[n] != 0
      invariant n <= len < name.Length && (name[n] == 0 ==> n == len)
      decreases len - n
    {
      ZeroAhead(name[..], n, len);
      n := n + 1;
      ZeroAhead(name[..], n, len);
    }
  }

  // Moves the p letters of a label one place down, over its length, and puts a
  // dot behind them.
  method ShiftLabel(name: array<byte>, at: nat, p: nat) returns (i: nat)
    requires at + p < name.Length
    modifies name
    ensures i == at + p
    ensures name[..] == Splice(old(name[..]), at, old(name[at + 1..at + 1 + p]) + [DOT])
  {
    i := at;
    var j := 0;
    while j < p
      invariant j <= p && i == at + j
      invariant forall q :: at <= q < i ==> name[q] == old(name[q + 1])
      invariant forall q :: 0 <= q < name.Length && !(at <= q < i) ==> name[q] == old(name[q])
    {
      name[i] := name[i + 1];
      i := i + 1;
      j := j + 1;
    }
    name[i] := DOT;
    ghost var s := Splice(old(name[..]), at, old(name[at + 1..at + 1 + p]) + [DOT]);
    assert forall q :: 0 <= q < name.Length ==> name[q] == s[q];
  }

  // The buffer holds the text done, then the raw labels, then the end mark.
  ghost predicate Halfway(name: Bytes, n: nat, done: Bytes, rest: seq<Bytes>) {
    && n == |done| + |Raw(rest)| < |name| && Labels(rest)
    && name[..n] == done + Raw(rest) && IsLength(name, n)
  }

  // One label turned into text.
  lemma OneShifted(name: Bytes, n: nat, done: Bytes, rest: seq<Bytes>)
    requires Halfway(name, n, done, rest) && rest != []
    ensures var l, at := rest[0], |done|;
      && at + 1 + |l| <= n && name[at] == |l| && name[at + 1..at + 1 + |l|] == l
      && Halfway(Splice(name, at, l + [DOT]), n, done + (l + [DOT]), rest[1..])
  {
    var l, at, tail := rest[0], |done|, Raw(rest[1..]);
    assert Raw(rest) == LabelBytes(l) + tail && LabelBytes(l) == [|l|] + l;
    assert name[..n] == done + ([|l|] + l + tail);
    Pieces(name, at, |l|, l, tail) by {
      assert name[at..n] == [|l|] + l + tail;
    }
    var name' := Splice(name, at, l + [DOT]);
    assert name'[..n] == done + (l + [DOT]) + tail;
    forall k | 0 <= k < n
      ensures name'[k] != 0
    {
      assert name[..n][k] == name[k];
    }
  }

  lemma NothingLeft(name: Bytes, n: nat, done: Bytes, rest: seq<Bytes>)
    requires Halfway(name, n, done, rest) && n == |done|
    ensures rest == [] && name[..n] == done
  {
    if rest != [] {
      OneShifted(name, n, done, rest);
    }
  }

  // Halfway, and the text done so far is the beginning of the whole text.
  ghost predicate Turning(name: Bytes, n: nat, done: Bytes, rest: seq<Bytes>, text: Bytes) {
    Halfway(name, n, done, rest) && text == done + Dotted(rest)
  }

  lemma TurnOne(name: Bytes, n: nat, at: nat, done: Bytes, rest: seq<Bytes>, text: Bytes) returns (name': Bytes, s: Bytes)
    requires Turning(name, n, done, rest, text) && |done| == at < n
    ensures at + 1 + name[at] <= n && rest != [] && |done + s| == at + name[at] + 1
    ensures s == name[at + 1..at + 1 + name[at]] + [DOT] && name' == Splice(name, at, s)
    ensures Turning(name', n, done + s, rest[1..], text)
  {
    assert rest != [];
    OneShifted(name, n, done, rest);
    s := rest[0] + [DOT];
    name' := Splice(name, at, s);
    assert Dotted(rest) == s + Dotted(rest[1..]);
    assert done + (s + Dotted(rest[1..])) == (done + s) + Dotted(rest[1..]);
  }

  // One round of the second loop of read_name.
  method TurnLabel(name: array<byte>, at: nat, ghost was: Bytes, ghost n: nat, ghost done: Bytes, ghost rest: seq<Bytes>,
                   ghost text: Bytes) returns (i: nat, ghost now: Bytes, ghost s: Bytes)
    requires name[..] == was && Turning(was, n, done, rest, text) && |done| == at < n
    modifies name
    ensures name[..] == now && rest != [] && Turning(now, n, done + s, rest[1..], text) && |done + s| == i + 1 <= n
  {
    now, s := TurnOne(was, n, at, done, rest, text);
    assert name[at] == was[at];
    i := ShiftLabel(name, at, name[at]);
  }

  // The second loop of read_name: lengths become dots.
  method LengthsToDots(name: array<byte>, ghost n: nat, ghost labels: seq<Bytes>) returns (i: nat)
    requires Halfway(name[..], n, [], labels)
    modifies name
    ensures i == n && IsLength(name[..], n) && name[..][..n] == Dotted(labels)
  {
    ghost var done, rest, text, now := [], labels, Dotted(labels), name[..];
    assert [] + text == text;
    i := 0;
    var len := Strlen(name, n);
    while i < len
      invariant len == n && i == |done| <= n && name[..] == now
      invariant Turning(now, n, done, rest, text)
      decreases n - i
    {
      ghost var s: Bytes;
      i, now, s := TurnLabel(name, i, now, n, done, rest, text);
      done, rest := done + s, rest[1..];
      i := i + 1;
      len := Strlen(name, n);
    }
    NothingLeft(now, n, done, rest);
    assert done + [] == done;
  }

  // And the last dot becomes the end.
  method ToDots(name: array<byte>, ghost n: nat, ghost labels: seq<Bytes>) returns (last: nat)
    requires Halfway(name[..], n, [], labels) && labels != []
    modifies name
    ensures last + 1 == n == |Dotted(labels)| && IsLength(name[..], last) && name[..][..last] == Dotted(labels)[..last]
  {
    var i := LengthsToDots(name, n, labels);
    last := i - 1;
    ghost var text := name[..][..i];
    name[last] := 0;
    assert name[..][..last] == text[..last];
  }

  // MAIN: whatever the pointers, read_name gives the text of the name at start,
  // and count is the number of bytes it takes there.  A name without labels is
  // left out: the source then writes in front of its buffer.
  method ReadName(msg: Bytes, start: nat, ghost bound: nat) returns (name: Bytes, count: nat)
    requires WellFormed(msg, start, bound) && Denoted(msg, start, bound) != [] && |Raw(Denoted(msg, start, bound))| < 256
    ensures name == Host(Denoted(msg, start, bound)) && count == Taken(msg, start, bound)
  {
    ghost var labels := Denoted(msg, start, bound);
    var buf := new byte[256];
    var p;
    p, count := ReadRaw(msg, start, buf, bound);
    RawHalfway(buf[..], p, labels, msg, start, bound);
    var last := ToDots(buf, p, labels);
    var n := Strlen(buf, last);
    name := buf[..n];
    assert name == buf[..][..n];
  }

  lemma {:induction false} RawNoZero(labels: seq<Bytes>)
    requires Labels(labels)
    ensures 0 !in Raw(labels)
    decreases |labels|
  {
    if labels != [] {
      RawNoZero(labels[1..]);
    }
  }

  lemma RawHalfway(name: Bytes, p: nat, labels: seq<Bytes>, msg: Bytes, start: nat, bound: nat)
    requires WellFormed(msg, start, bound) && labels == Denoted(msg, start, bound)
    requires p == |Raw(labels)| < |name| && name[..p] == Raw(labels) && name[p] == 0
    ensures Halfway(name, p, [], labels)
  {
    DenotesLabels(msg, start, bound);
    RawNoZero(labels);
    assert [] + Raw(labels) == Raw(labels);
  }

  // ----------------------------------------------------------------- round trip

  // MAIN: a host whose labels are not empty, written by set_domain anywhere in a
  // message, is what read_name reads there, and it reads as many bytes as were
  // written.
  lemma RoundTrip(msg: Bytes, pos: nat, host: Bytes)
    requires |host| <= 30 && Labels(LabelsOf(host)) && EncodedAt(msg, pos, LabelsOf(host))
    ensures WellFormed(msg, pos, pos) && Denoted(msg, pos, pos) != [] && |Raw(Denoted(msg, pos, pos))| < 256
    ensures Host(Denoted(msg, pos, pos)) == host && Taken(msg, pos, pos) == |host| + 2
  {
    EncodedDenotes(msg, pos, pos, LabelsOf(host));
    HostOfLabels(host);
    SplitDotted(host + [DOT], 0);
    RawLength(LabelsOf(host));
    assert (host + [DOT])[0..] == host + [DOT];
  }

  // These labels stand at pos, without an end mark.
  predicate RawAt(msg: Bytes, pos: nat, labels: seq<Bytes>) {
    pos + |Raw(labels)| <= |msg| && msg[pos..pos + |Raw(labels)|] == Raw(labels)
  }

  lemma RawStep(msg: Bytes, pos: nat, labels: seq<Bytes>)
    requires labels != [] && Label(labels[0]) && RawAt(msg, pos, labels)
    ensures LabelAt(msg, pos) == Some(labels[0])
    ensures |Raw(labels)| == 1 + |labels[0]| + |Raw(labels[1..])| && RawAt(msg, pos + 1 + |labels[0]|, labels[1..])
  {
    var l, rest := labels[0], Raw(labels[1..]);
    assert Raw(labels) == [|l|] + l + rest;
    Pieces(msg, pos, |l|, l, rest);
  }

  // The same, label by label.
  predicate Stand(msg: Bytes, pos: nat, labels: seq<Bytes>)
    decreases |labels|
  {
    labels == [] || (LabelAt(msg, pos) == Some(labels[0]) && Stand(msg, pos + 1 + |labels[0]|, labels[1..]))
  }

  function Span(labels: seq<Bytes>): nat {
    if labels == [] then 0 else 1 + |labels[0]| + Span(labels[1..])
  }

  lemma {:induction false} RawStands(msg: Bytes, pos: nat, labels: seq<Bytes>)
    requires Labels(labels) && RawAt(msg, pos, labels)
    ensures Stand(msg, pos, labels) && Span(labels) == |Raw(labels)|
    decreases |labels|
  {
    if labels != [] {
      assert Label(labels[0]);
      RawStep(msg, pos, labels);
      RawStands(msg, pos + 1 + |labels[0]|, labels[1..]);
    }
  }

  lemma {:induction false} LabelsInFront(msg: Bytes, pos: nat, bound: nat, pre: seq<Bytes>, name: Name)
    requires Labels(pre) && Stand(msg, pos, pre) && NameAt(msg, pos + Span(pre), bound) == Some(name)
    ensures NameAt(msg, pos, bound) == Some(Name(pre + name.labels, Span(pre) + name.taken))
    decreases |pre|
  {
    if pre == [] {
      assert pre + name.labels == name.labels;
    } else {
      var l, rest := pre[0], pre[1..];
      assert Label(l);
      LabelsInFront(msg, pos + 1 + |l|, bound, rest, name);
      LabelInFront(msg, pos, bound, l, rest + name.labels, Span(rest) + name.taken);
      assert pre + name.labels == [l] + (rest + name.labels);
    }
  }

  // The two bytes of a pointer to target (RFC 1035, section 4.1.4).
  predicate PointerBytes(msg: Bytes, at: nat, target: nat) {
    at + 1 < |msg| && msg[at] == 192 + target / 256 && msg[at + 1] == target % 256 && target < 16384
  }

  lemma PointerTarget(msg: Bytes, at: nat, target: nat)
    requires PointerBytes(msg, at, target)
    ensures msg[at] >= 192 && Target(msg, at) == target
  {
  }

  lemma PointerAt(msg: Bytes, pos: nat, bound: nat, target: nat)
    requires PointerBytes(msg, pos, target) && target < bound && WellFormed(msg, target, target)
    ensures NameAt(msg, pos, bound) == Some(Name(Denoted(msg, target, target), 2))
  {
    PointerTarget(msg, pos, target);
  }

  // MAIN: labels followed by a pointer to a name written earlier denote these
  // labels in front of that name's, and take their own bytes and two more.
  lemma PointerDenotes(msg: Bytes, pos: nat, bound: nat, pre: seq<Bytes>, target: nat)
    requires Labels(pre) && RawAt(msg, pos, pre) && WellFormed(msg, target, target)
    requires PointerBytes(msg, pos + |Raw(pre)|, target) && target < bound
    ensures WellFormed(msg, pos, bound) && Denoted(msg, pos, bound) == pre + Denoted(msg, target, target)
    ensures Taken(msg, pos, bound) == |Raw(pre)| + 2
  {
    RawStands(msg, pos, pre);
    PointerAt(msg, pos + |Raw(pre)|, bound, target);
    LabelsInFront(msg, pos, bound, pre, Name(Denoted(msg, target, target), 2));
  }

  lemma {:induction false} DottedConcat(a: seq<Bytes>, b: seq<Bytes>)
    ensures Dotted(a + b) == Dotted(a) + Dotted(b)
    decreases |a|
  {
    if a == [] {
      assert a + b == b;
    } else {
      assert (a + b)[1..] == a[1..] + b;
      DottedConcat(a[1..], b);
    }
  }

  lemma DottedNotEmpty(labels: seq<Bytes>)
    requires labels != []
    ensures Dotted(labels) != [] && Dotted(labels)[|Dotted(labels)| - 1] == DOT
  {
    DottedConcat(labels[..|labels| - 1], [labels[|labels| - 1]]);
    assert labels == labels[..|labels| - 1] + [labels[|labels| - 1]];
    DottedStep(labels[|labels| - 1], []);
  }

  // The text of two runs of labels.
  lemma HostJoined(a: seq<Bytes>, b: seq<Bytes>)
    requires a != [] && b != []
    ensures Host(a + b) == Host(a) + [DOT] + Host(b)
  {
    DottedConcat(a, b);
    DottedNotEmpty(a);
    DottedNotEmpty(b);
    var x, y := Dotted(a), Dotted(b);
    assert x == x[..|x| - 1] + [DOT];
    assert (x + y)[..|x + y| - 1] == x + y[..|y| - 1];
  }

  // MAIN: a message may hold a host written by set_domain and later a longer
  // name as labels and a pointer to it; read_name gives the text of the labels, a
  // dot, and the host.
  lemma CompressedRoundTrip(msg: Bytes, pos: nat, bound: nat, pre: seq<Bytes>, target: nat, host: Bytes)
    requires pre != [] && Labels(pre) && RawAt(msg, pos, pre)
    requires PointerBytes(msg, pos + |Raw(pre)|, target) && target < bound
    requires Labels(LabelsOf(host)) && EncodedAt(msg, target, LabelsOf(host))
    ensures WellFormed(msg, pos, bound) && Taken(msg, pos, bound) == |Raw(pre)| + 2
    ensures Denoted(msg, pos, bound) != [] && Host(Denoted(msg, pos, bound)) == Host(pre) + [DOT] + host
  {
    EncodedDenotes(msg, target, target, LabelsOf(host));
    PointerDenotes(msg, pos, bound, pre, target);
    HostOfLabels(host);
    LabelsNotEmpty(host);
    HostJoined(pre, LabelsOf(host));
  }

  // Every text has at least one label, if only an empty one.
  lemma LabelsNotEmpty(host: Bytes)
    ensures LabelsOf(host) != []
  {
    SplitDotted(host + [DOT], 0);
    assert (host + [DOT])[0..] == host + [DOT];
  }

  // MAIN: for a host of such letters the round trip works exactly when no label
  // is empty; otherwise read_name stops early and counts fewer bytes.
  lemma RoundTripIff(msg: Bytes, pos: nat, host: Bytes)
    requires |host| <= 30 && Spelled(LabelsOf(host)) && EncodedAt(msg, pos, LabelsOf(host))
    ensures WellFormed(msg, pos, pos) && Taken(msg, pos, pos) <= |host| + 2
    ensures Labels(LabelsOf(host)) <==> Taken(msg, pos, pos) == |host| + 2 && Host(Denoted(msg, pos, pos)) == host
  {
    EmptyLabelEnds(msg, pos, pos, LabelsOf(host));
    HostOfLabels(host);
    SplitDotted(host + [DOT], 0);
    RawLength(LabelsOf(host));
    assert (host + [DOT])[0..] == host + [DOT];
    if Labels(LabelsOf(host)) {
      RoundTrip(msg, pos, host);
    }
  }
}
