/** lib/libhv/event/unpack.c on the read buffer of an io, with the buffer's growth and shrinking in
    lib/libhv/event/hevent.c. */
module Unpack {
  import opened Bytes
  import opened Folding
  import opened UnpackSpec
  import Varint

  /** One more package taken out of the buffer contents `s` up to `p`. */
  predicate Progress(m: Mode, s: seq<Byte>, p: nat, done: seq<seq<Byte>>)
    requires SaneMode(m)
  {
    && p <= |s| && Packages(m, s) == done + Packages(m, s[p..]) && Rest(m, s) == Rest(m, s[p..])
  }

  lemma ProgressStep(m: Mode, s: seq<Byte>, p: nat, done: seq<seq<Byte>>)
    requires SaneMode(m) && Progress(m, s, p, done) && CutOf(m, s[p..]).Package?
    ensures var n := CutOf(m, s[p..]).length; p + n <= |s| && Progress(m, s, p + n, done + [s[p..p + n]])
  {
    hide CutOf, SaneMode, Packages, Rest;
    PackagesFrom(m, s, p);
    var n := CutOf(m, s[p..]).length;
    assert done + ([s[p..p + n]] + Packages(m, s[p + n..])) == done + [s[p..p + n]] + Packages(m, s[p + n..]);
  }

  lemma ProgressEnd(m: Mode, s: seq<Byte>, p: nat, done: seq<seq<Byte>>)
    requires SaneMode(m) && Progress(m, s, p, done) && !CutOf(m, s[p..]).Package?
    ensures done == Packages(m, s) && Rest(m, s) == s[p..]
  {
    hide CutOf, SaneMode;
    assert done + [] == done;
  }

  class Unpacker {
    const setting: Setting
    /** `readbuf`; its head is always 0 in these modes. */
    var base: array<Byte>
    var tail: nat
    /** `small_readbytes_cnt`. */
    var small: nat
    var closed: bool
    /** The packages handed to the read callback, and all bytes received. */
    var delivered: seq<seq<Byte>>
    ghost var received: seq<Byte>

    /** The buffer has room for the next read and is no larger than a package may be, and it holds what
        is left of the stream. */
    ghost predicate Valid()
      reads this, base
    {
      && Sane(setting) && (!closed ==>
        Roomy() && Counts() && Settled(base[..tail]) && (setting.mode.FixedLength? ==> small == 0))
    }

    ghost predicate Roomy()
      reads this
    {
      && tail < base.Length <= setting.max
      && (if setting.mode.FixedLength? then base.Length == setting.mode.length else base.Length >= Smallest(setting))
    }

    ghost predicate Settled(rest: seq<Byte>)
      requires Sane(setting)
      reads this
    {
      delivered == Packages(setting.mode, received) && rest == Rest(setting.mode, received)
    }

    /** Small packages are counted only while the buffer is a large one. */
    ghost predicate Counts()
      reads this
    {
      small > 0 ==> base.Length > HIGH_WATER
    }

    /** `hio_set_unpack`. */
    constructor (setting: Setting)
      requires Sane(setting)
      ensures Valid() && !closed && delivered == [] && received == [] && this.setting == setting && fresh(base)
    {
      this.setting := setting;
      base := new Byte[if setting.mode.FixedLength? then setting.mode.length else Smallest(setting)](_ => 0);
      tail, small, closed, delivered, received := 0, 0, false, [], [];
      new;
      hide Packages, Rest;
      Nothing(setting.mode);
      assert base[..0] == [];
    }

    /** `hio_read_cb`, with a callback that only leaves a trace. */
    method Deliver(package: seq<Byte>)
      modifies this`delivered, this`small
      ensures delivered == old(delivered) + [package] && base == old(base)
      ensures old(small) == 0 && (base.Length <= HIGH_WATER || |package| >= base.Length / 2) ==> small == 0
      ensures old(Counts()) ==> Counts()
    {
      delivered := delivered + [package];
      if base.Length > HIGH_WATER {
        small := if |package| < base.Length / 2 then small + 1 else 0;
      }
    }

    /** `memmove` of the rest to the front of the buffer. */
    method MoveDown(p: nat, remain: nat)
      requires p + remain <= base.Length
      modifies base, this`tail
      ensures tail == remain && base[..remain] == old(base[p..p + remain])
    {
      tail := remain;
      var i := 0;
      while i < remain
        invariant i <= remain && tail == remain && base == old(base) && base[..i] == old(base[p..p + i])
        invariant forall k :: p + i <= k < p + remain ==> base[k] == old(base[k])
      {
        base[i] := base[p + i];
        i := i + 1;
      }
    }

    /** `hio_alloc_readbuf`. */
    method Realloc(len: nat)
      requires tail <= len
      requires tail <= base.Length
      modifies this`base, this`small
      ensures fresh(base) && base.Length == len && small == 0 && base[..tail] == old(base[..tail])
    {
      var wider := new Byte[len](_ => 0);
      var i := 0;
      while i < tail
        invariant i <= tail && base == old(base) && base[..] == old(base[..]) && wider[..i] == base[..i]
      {
        wider[i] := base[i];
        i := i + 1;
      }
      base := wider;
      small := 0;
    }

    /** `hio_unpack_by_fixed_length`. */
    method ByFixedLength(total: nat)
      requires Sane(setting) && setting.mode.FixedLength? && total <= base.Length == setting.mode.length && small == 0
      modifies this`delivered, this`small, this`tail, base
      ensures delivered == old(delivered) + Packages(setting.mode, old(base[..total]))
      ensures tail < base.Length && base[..tail] == Rest(setting.mode, old(base[..total])) && small == 0
    {
      hide Packages, Rest;
      ghost var s := base[..total];
      ghost var done: seq<seq<Byte>> := [];
      var n := setting.mode.length;
      var p := 0;
      var remain := total;
      assert s[0..] == s && delivered == old(delivered) + done;
      while remain >= n
        invariant p + remain == total && small == 0 && base == old(base) && base[..total] == s
        invariant Progress(setting.mode, s, p, done) && delivered == old(delivered) + done
      {
        ProgressStep(setting.mode, s, p, done);
        assert base[p..p + n] == s[p..p + n];
        Deliver(base[p..p + n]);
        done := done + [s[p..p + n]];
        p := p + n;
        remain := remain - n;
      }
      ProgressEnd(setting.mode, s, p, done);
      assert base[p..p + remain] == s[p..];
      MoveDown(p, remain);
    }

    /** `hio_unpack_by_delimiter`: the search resumes where a delimiter that straddles two reads could
        start. False if the io is to be closed. */
    method ByDelimiter(total: nat, fresh_: nat) returns (ok: bool)
      requires Sane(setting) && setting.mode.Delimiter? && fresh_ <= total <= base.Length <= setting.max
          && base.Length > 0
      requires !CutOf(setting.mode, base[..fresh_]).Package? && Counts()
      modifies this`delivered, this`small, this`tail, this`base, base
      ensures delivered == old(delivered) + Packages(setting.mode, old(base[..total]))
      ensures tail <= base.Length <= setting.max && old(base.Length) <= base.Length
          && base[..tail] == Rest(setting.mode, old(base[..total]))
      ensures ok ==> tail < base.Length && Counts()
      ensures !ok ==> tail == setting.max
      ensures base == old(base) || fresh(base)
    {
      hide Packages, Rest, FindEnd, CutOf, At;
      ghost var s := base[..total];
      ghost var done: seq<seq<Byte>> := [];
      var d := setting.mode.bytes;
      var sp := 0;
      var p := if fresh_ + 1 >= |d| then fresh_ + 1 - |d| else 0;
      assert s[0..] == s && delivered == old(delivered) + done;
      assert s[..fresh_] == base[..fresh_] && setting.mode == Delimiter(d);
      NotYet(s, d, fresh_);
      while p + |d| <= total
        invariant sp <= p && base == old(base) && base[..total] == s && Counts()
        invariant forall j :: sp <= j < p ==> !At(s, d, j)
        invariant Progress(setting.mode, s, sp, done) && delivered == old(delivered) + done
        decreases total - p
      {
        var same := Compare(base, p, d);
        assert base[..][..total] == s && base[..][p..p + |d|] == base[p..p + |d|];
        AtBuffer(s, base[..], d, p, total);
        if same {
          FoundAt(s, d, sp, p);
          ProgressStep(setting.mode, s, sp, done);
          p := p + |d|;
          Slice(s, base[..], sp, p, total);
          assert base[..][sp..p] == base[sp..p];
          Deliver(base[sp..p]);
          done := done + [s[sp..p]];
          sp := p;
        } else {
          p := p + 1;
        }
      }
      NothingAfter(s, d, sp, p);
      ProgressEnd(setting.mode, s, sp, done);
      assert base[sp..total] == s[sp..];
      ok := Keep(sp, total);
    }

    /** The end of `hio_unpack_by_delimiter`: the rest moves to the front, and a full buffer grows. */
    method Keep(sp: nat, total: nat) returns (ok: bool)
      requires sp <= total <= base.Length <= setting.max && base.Length > 0
      modifies this`small, this`tail, this`base, base
      ensures tail <= base.Length <= setting.max && old(base.Length) <= base.Length
          && base[..tail] == old(base[sp..total])
      ensures ok ==> tail < base.Length && (old(Counts()) ==> Counts())
      ensures !ok ==> tail == setting.max
      ensures base == old(base) || fresh(base)
    {
      MoveDown(sp, total - sp);
      ok := true;
      if tail > 0 && tail == base.Length {
        if base.Length >= setting.max {
          return false;
        }
        Realloc(if 2 * base.Length < setting.max then 2 * base.Length else setting.max);
      }
    }

    /** The length field of the package at `p`: what the stream says there. */
    method ReadLength(p: nat, total: nat) returns (c: Cut, need: nat)
      requires SaneMode(setting.mode) && setting.mode.LengthField? && p + setting.mode.body <= total <= base.Length
      ensures c == CutOf(setting.mode, base[p..total])
      ensures c.Package? ==> need == c.length
      ensures c.Wait? ==> need == c.need
    {
      hide Finish, Big, Little, Varint.SpanOf, Varint.Value;
      var m := setting.mode;
      ghost var s := base[p..total];
      if m.coding == VarintCoding {
        c := ReadVarint(p, total);
      } else {
        SubSlice(base[..], p, total, m.at, m.at + m.width);
        assert s == base[..][p..total] && base[..][p + m.at..p + m.at + m.width] == base[p + m.at..p + m.at + m.width];
        var bodyLen;
        if m.coding == BigEndianCoding {
          bodyLen := ReadBig(base, p + m.at, m.width);
        } else {
          bodyLen := ReadLittle(base, p + m.at, m.width);
        }
        c := Finish(m.body + bodyLen + m.adjust, total - p);
      }
      need := match c case Package(n) => n case Wait(n) => n case _ => 0;
    }

    method ReadVarint(p: nat, total: nat) returns (c: Cut)
      requires SaneMode(setting.mode) && setting.mode.LengthField? && p + setting.mode.body <= total <= base.Length
      requires setting.mode.coding == VarintCoding
      ensures c == CutOf(setting.mode, base[p..total])
    {
      hide Finish, Varint.SpanOf, Varint.Value;
      var m := setting.mode;
      ghost var s := base[p..total];
      assert s[m.at..] == base[p + m.at..total];
      Varint.SpanStable(s[m.at..], [], 0);
      var value, bytes := Varint.Decode(base[p + m.at..total]);
      if bytes == 0 {
        return More;
      }
      if bytes == -1 {
        return TooBig;
      }
      c := Finish(m.body + bytes - m.width + value % 0x1_0000_0000 + m.adjust, total - p);
    }

    /** `hio_unpack_by_length_field`. False if the io is to be closed. */
    method ByLengthField(total: nat) returns (ok: bool)
      requires Sane(setting) && setting.mode.LengthField? && total <= base.Length <= setting.max
      requires base.Length >= Smallest(setting) && Counts()
      requires CutOf(setting.mode, Rest(setting.mode, base[..total])) != Outside
      modifies this`delivered, this`small, this`tail, this`base, base
      ensures delivered == old(delivered) + Packages(setting.mode, old(base[..total]))
      ensures ok ==> tail < base.Length <= setting.max && old(base.Length) <= base.Length && Counts()
      ensures ok ==> base[..tail] == Rest(setting.mode, old(base[..total]))
      ensures ok <==> !Oversized(setting, Rest(setting.mode, old(base[..total])))
      ensures base == old(base) || fresh(base)
    {
      hide Packages, Rest, CutOf;
      ghost var s := base[..total];
      ghost var done: seq<seq<Byte>> := [];
      var m := setting.mode;
      var p := 0;
      var packageLen: nat := m.body;
      var c := More;
      assert s[0..] == s && delivered == old(delivered) + done;
      while total - p >= m.body
        invariant p <= total && base == old(base) && base[..total] == s && Counts() && c == More
            && packageLen <= base.Length
        invariant Progress(m, s, p, done) && delivered == old(delivered) + done
        decreases total - p
      {
        assert base[p..total] == s[p..];
        var need;
        c, need := ReadLength(p, total);
        if c == TooBig {
          ProgressEnd(m, s, p, done);
          return false;
        }
        if c.Wait? {
          packageLen := need;
        }
        if !c.Package? {
          break;
        }
        packageLen := need;
        ProgressStep(m, s, p, done);
        Slice(s, base[..], p, p + packageLen, total);
        assert base[..][p..p + packageLen] == base[p..p + packageLen];
        Deliver(base[p..p + packageLen]);
        done := done + [s[p..p + packageLen]];
        p := p + packageLen;
        c := More;
      }
      Uncut(m, s[p..], c);
      ProgressEnd(m, s, p, done);
      assert base[p..total] == s[p..];
      RoomFor(setting, s[p..]);
      ok := Provide(p, total, packageLen);
    }

    /** The end of `hio_unpack_by_length_field`: the buffer grows to hold the announced package. */
    method Provide(p: nat, total: nat, packageLen: nat) returns (ok: bool)
      requires p <= total <= base.Length <= setting.max
      modifies this`small, this`tail, this`base, base
      ensures tail == total - p <= base.Length && base[..tail] == old(base[p..total]) && (old(Counts()) ==> Counts())
      ensures ok ==> old(base.Length) <= base.Length <= setting.max && (tail > 0 ==> packageLen <= base.Length)
      ensures !ok ==> packageLen > setting.max && tail > 0
      ensures base == old(base) || fresh(base)
    {
      MoveDown(p, total - p);
      ok := true;
      if tail > 0 && packageLen > base.Length {
        if packageLen > setting.max {
          return false;
        }
        Realloc(if 2 * base.Length < packageLen then packageLen
                else if 2 * base.Length > setting.max then setting.max else 2 * base.Length);
      }
    }

    /** The end of `hio_handle_read`: the buffer is never full here, and shrinks after three small packages. */
    method AutoSize()
      requires Sane(setting) && Roomy() && Counts() && (setting.mode.FixedLength? ==> small == 0)
      modifies this`base, this`small
      ensures Roomy() && Counts() && (setting.mode.FixedLength? ==> small == 0)
      ensures base[..tail] == old(base[..tail]) && (base == old(base) || fresh(base))
    {
      if tail == base.Length {
        assert false;
      } else if tail < base.Length / 2 && small >= 3 {
        Realloc(base.Length / 2);
      }
    }

    /** The kernel puts bytes behind the tail. */
    method Receive(data: seq<Byte>)
      requires tail + |data| <= base.Length
      modifies base
      ensures base[..tail + |data|] == old(base[..tail]) + data
    {
      var i := 0;
      while i < |data|
        invariant i <= |data| && base[..tail + i] == old(base[..tail]) + data[..i]
      {
        base[tail + i] := data[i];
        i := i + 1;
      }
      assert data[..|data|] == data;
    }

    /** One read and its handling. Any number of bytes may arrive, up to the room there is, and there
        always is some. */
    method Read(data: seq<Byte>)
      requires Valid() && !closed && 0 < |data| <= base.Length - tail
      requires CutOf(setting.mode, Rest(setting.mode, received + data)) != Outside
      modifies this, base
      ensures Valid() && received == old(received) + data && (base == old(base) || fresh(base))
      ensures delivered == Packages(setting.mode, received)
      ensures closed <==> Oversized(setting, Rest(setting.mode, received))
    {
      hide Packages, Rest, CutOf;
      var m := setting.mode;
      var had := tail;
      ghost var rest := base[..tail];
      PackagesMore(m, received, data);
      RestUncut(m, received);
      Receive(data);
      received := received + data;
      RestUncut(m, received);
      var total := tail + |data|;
      assert base[..had] == base[..total][..had] == rest;
      var ok := true;
      match m {
        case FixedLength(_) => ByFixedLength(total);
        case Delimiter(_) => ok := ByDelimiter(total, had);
        case LengthField(_, _, _, _, _) => ok := ByLengthField(total);
      }
      if ok {
        AutoSize();
      } else {
        closed := true;
      }
    }
  }

  /** The stream holds a package that is larger than allowed, or a length that is too big to read. */
  predicate Oversized(s: Setting, rest: seq<Byte>)
    requires Sane(s)
  {
    match s.mode
    case FixedLength(_) => false
    case Delimiter(_) => |rest| >= s.max && !CutOf(s.mode, rest).Package?
    case LengthField(_, _, _, _, _) => var c := CutOf(s.mode, rest); c == TooBig || (c.Wait? && c.need > s.max)
  }

  /** An io is closed only for a package that is larger than allowed: whatever follows, the package at
      the front would not be within the limit. */
  lemma NeverWithinLimit(s: Setting, rest: seq<Byte>, t: seq<Byte>)
    requires Sane(s) && Oversized(s, rest)
    ensures CutOf(s.mode, rest + t).Package? ==> CutOf(s.mode, rest + t).length > s.max
  {
    CutStable(s.mode, rest, t);
    match s.mode
    case FixedLength(_) =>
    case Delimiter(d) =>
      var c := FindEnd(rest + t, d, 0);
      FindEndBound(rest, d, 0);
      FindEndBound(rest + t, d, 0);
      NoDelimiter(rest, d, 0);
      if c.Package? && c.length <= s.max {
        Shortest(rest + t, d, 0, c.length);
        assert (rest + t)[c.length - |d|..c.length] == rest[c.length - |d|..c.length];
        assert At(rest, d, c.length - |d|);
      }
    case LengthField(body, at, width, adjust, coding) =>
      if CutOf(s.mode, rest) != TooBig {
        AnnouncedStays(s.mode, rest, t);
      }
  }

  lemma AnnouncedStays(m: Mode, rest: seq<Byte>, t: seq<Byte>)
    requires SaneMode(m) && m.LengthField? && CutOf(m, rest).Wait?
    ensures CutOf(m, rest + t) == Finish(CutOf(m, rest).need, |rest + t|)
  {
    assert (rest + t)[m.at..m.at + m.width] == rest[m.at..m.at + m.width];
    assert (rest + t)[m.at..] == rest[m.at..] + t;
    Varint.SpanStable(rest[m.at..], t, 0);
    var span := Varint.SpanOf(rest[m.at..], 0);
    if span.Span? {
      assert (rest[m.at..] + t)[..span.bytes] == rest[m.at..][..span.bytes];
    }
  }

  /** Well-formed packages, sent one after another, come out one by one. */
  lemma {:induction false} Framed(m: Mode, ps: seq<seq<Byte>>)
    requires SaneMode(m) && forall i :: 0 <= i < |ps| ==> CutOf(m, ps[i]) == Package(|ps[i]|)
    ensures Packages(m, Join(ps)) == ps && Rest(m, Join(ps)) == []
    decreases |ps|
  {
    hide CutOf;
    if ps == [] {
      Nothing(m);
    } else {
      var more := Join(ps[1..]);
      CutStable(m, ps[0], more);
      Framed(m, ps[1..]);
      assert (ps[0] + more)[..|ps[0]|] == ps[0] && (ps[0] + more)[|ps[0]|..] == more;
      assert ps == [ps[0]] + ps[1..];
    }
  }

  /** Reading a number of `width` bytes, most significant first. */
  method ReadBig(base: array<Byte>, at: nat, width: nat) returns (v: nat)
    requires at + width <= base.Length
    ensures v == Big(base[at..at + width])
  {
    v := 0;
    var i := 0;
    while i < width
      invariant i <= width && v == Big(base[at..at + i])
    {
      assert base[at..at + i + 1][..i] == base[at..at + i];
      v := (v * 256 + base[at + i]) % 0x1_0000_0000;
      i := i + 1;
    }
  }

  method ReadLittle(base: array<Byte>, at: nat, width: nat) returns (v: nat)
    requires at + width <= base.Length
    ensures v == Little(base[at..at + width])
  {
    v := 0;
    var weight: nat := 1;
    var i := 0;
    while i < width
      invariant i <= width && v == Little(base[at..at + i]) && weight == Pow256(i)
    {
      assert base[at..at + i + 1][..i] == base[at..at + i];
      v := v + base[at + i] * weight;
      weight := weight * 256;
      i := i + 1;
    }
  }

  lemma Uncut(m: Mode, rest: seq<Byte>, c: Cut)
    requires SaneMode(m) && m.LengthField? && !c.Package?
    requires |rest| < m.body || c == CutOf(m, rest)
    ensures !CutOf(m, rest).Package?
  {
  }

  /** What is left over fits the buffer with room to spare, whatever it is short of. */
  lemma RoomFor(s: Setting, rest: seq<Byte>)
    requires Sane(s) && s.mode.LengthField?
    ensures CutOf(s.mode, rest) == More ==> |rest| < Smallest(s)
    ensures |rest| < s.mode.body ==> CutOf(s.mode, rest) == More
  {
    if |rest| >= s.mode.body && s.mode.coding == VarintCoding {
      Varint.SpanStable(rest[s.mode.at..], [], 0);
    }
  }

  /** The comparison loop at one position. */
  method Compare(base: array<Byte>, p: nat, d: seq<Byte>) returns (same: bool)
    requires p + |d| <= base.Length
    ensures same <==> base[p..p + |d|] == d
  {
    var i := 0;
    while i < |d|
      invariant i <= |d| && base[p..p + i] == d[..i]
    {
      if base[p + i] != d[i] {
        assert base[p..p + |d|][i] != d[i];
        return false;
      }
      assert base[p..p + i + 1] == base[p..p + i] + [base[p + i]];
      i := i + 1;
    }
    assert d[..|d|] == d;
    same := true;
  }

  lemma Slice(s: seq<Byte>, b: seq<Byte>, from: nat, to: nat, total: nat)
    requires from <= to <= total <= |b| && s == b[..total]
    ensures s[from..to] == b[from..to]
  {
  }

  lemma SubSlice(b: seq<Byte>, p: nat, total: nat, from: nat, to: nat)
    requires p + to <= total <= |b| && from <= to
    ensures b[p..total][from..to] == b[p + from..p + to]
  {
    var x, y := b[p..total][from..to], b[p + from..p + to];
    assert |x| == |y| && forall i :: 0 <= i < |x| ==> x[i] == y[i];
  }

  lemma AtBuffer(s: seq<Byte>, b: seq<Byte>, d: seq<Byte>, p: nat, total: nat)
    requires p + |d| <= total <= |b| && s == b[..total]
    ensures At(s, d, p) <==> b[p..p + |d|] == d
  {
    assert s[p..p + |d|] == b[p..p + |d|];
  }

  /** Before the place where the search resumes, no delimiter can start. */
  lemma NotYet(s: seq<Byte>, d: seq<Byte>, n: nat)
    requires d != [] && n <= |s| && !CutOf(Delimiter(d), s[..n]).Package?
    ensures forall j :: 0 <= j && j + |d| <= n ==> !At(s, d, j)
  {
    FindEndBound(s[..n], d, 0);
    NoDelimiter(s[..n], d, 0);
    forall j | 0 <= j && j + |d| <= n
      ensures !At(s, d, j)
    {
      assert s[..n][j..j + |d|] == s[j..j + |d|];
      assert !At(s[..n], d, j);
    }
  }

  /** The first delimiter after `sp` ends the package there. */
  lemma FoundAt(s: seq<Byte>, d: seq<Byte>, sp: nat, p: nat)
    requires d != [] && sp <= p && At(s, d, p) && forall j :: sp <= j < p ==> !At(s, d, j)
    ensures CutOf(Delimiter(d), s[sp..]) == Package(p + |d| - sp)
  {
    var t := s[sp..];
    assert t[p - sp..p - sp + |d|] == s[p..p + |d|];
    assert At(t, d, p - sp);
    NoDelimiter(t, d, 0);
    FindEndBound(t, d, 0);
    var n := FindEnd(t, d, 0).length;
    Shortest(t, d, 0, n);
    assert t[n - |d|..n] == s[sp + n - |d|..sp + n];
    assert At(s, d, sp + n - |d|);
  }

  lemma NothingAfter(s: seq<Byte>, d: seq<Byte>, sp: nat, p: nat)
    requires d != [] && sp <= p && sp <= |s| && p + |d| > |s| && forall j :: sp <= j < p ==> !At(s, d, j)
    ensures !CutOf(Delimiter(d), s[sp..]).Package?
  {
    var t := s[sp..];
    FindEndBound(t, d, 0);
    NoDelimiter(t, d, 0);
    forall j | j >= 0
      ensures !At(t, d, j)
    {
      if j + |d| <= |t| {
        assert t[j..j + |d|] == s[sp + j..sp + j + |d|];
        assert !At(s, d, sp + j);
      }
    }
  }

  lemma Nothing(m: Mode)
    requires SaneMode(m)
    ensures Packages(m, []) == [] && Rest(m, []) == [] && !CutOf(m, []).Package?
  {
  }
}
