/**
 * The BITS packet decoder of src/day_16.c: a transmission is a string of
 * bits holding one outermost packet.  Every packet starts with a 3-bit
 * version and a 3-bit type id.  Type 4 is a literal, written as 5-bit
 * groups whose first bit says whether another group follows.  Every other
 * type is an operator whose sub-packets are delimited either by their total
 * length in bits (length type 0, a 15-bit field) or by their number
 * (length type 1, an 11-bit field).
 *
 * The reader is specified by recursive functions over a cursor into the
 * bits, and implemented by a recursive method whose loops advance that
 * cursor as the C code does.  Where the C code would read past the end of
 * the string, the model reports Truncated.
 */
module Packets {
  import opened Wrappers

  type Bit = bool

  datatype Packet = Packet(
    version: nat,
    typeId: nat,
    lengthTypeId: nat,
    lengthValue: nat,
    literal: nat,
    subs: seq<Packet>)

  datatype DecodeError = Truncated(at: nat)

  function Pow2(n: nat): (r: nat)
    ensures r >= 1
  {
    if n == 0 then 1 else 2 * Pow2(n - 1)
  }

  /**
   * The width-bit field at pos, most significant bit first, read as
   * strtol(_, NULL, 2) reads it.
   */
  function Field(bits: seq<Bit>, pos: nat, width: nat): (v: nat)
    requires pos + width <= |bits|
    ensures v < Pow2(width)
  {
    if width == 0 then 0
    else 2 * Field(bits, pos, width - 1) + (if bits[pos + width - 1] then 1 else 0)
  }

  /**
   * The packets the C code can build: 3-bit version and type, a literal
   * with no sub-packets and zero length fields, an operator whose literal
   * stays 0, whose length field fits its width and, for length type 1,
   * whose sub-packet count is that field.
   */
  predicate WellFormed(p: Packet)
    decreases p, 1
  {
    && p.version < 8
    && p.typeId < 8
    && (p.typeId == 4 ==> p.lengthTypeId == 0 && p.lengthValue == 0 && p.subs == [])
    && (p.typeId != 4 ==>
          && p.literal == 0
          && p.lengthTypeId < 2
          && (p.lengthTypeId == 0 ==> p.lengthValue < Pow2(15))
          && (p.lengthTypeId == 1 ==> p.lengthValue < Pow2(11) && |p.subs| == p.lengthValue))
    && AllWellFormed(p.subs)
  }

  predicate AllWellFormed(ps: seq<Packet>)
    decreases ps, 0
  {
    ps == [] || (WellFormed(ps[0]) && AllWellFormed(ps[1..]))
  }

  lemma {:induction false} AllWellFormedSnoc(ps: seq<Packet>, p: Packet)
    requires AllWellFormed(ps) && WellFormed(p)
    ensures AllWellFormed(ps + [p])
    decreases |ps|
  {
    if ps != [] {
      assert (ps + [p])[1..] == ps[1..] + [p];
      AllWellFormedSnoc(ps[1..], p);
    } else {
      assert ([] + [p])[1..] == [];
    }
  }

  /* ---------- The reader, as functions ---------- */

  /** The 5-bit literal groups from pos on, appended to acc 4 bits at a time. */
  function LiteralGroups(bits: seq<Bit>, pos: nat, acc: nat): (r: Result<(nat, nat), DecodeError>)
    requires pos <= |bits|
    ensures r.Ok? ==> pos < r.value.1 <= |bits|
    decreases |bits| - pos
  {
    if pos + 5 > |bits| then Err(Truncated(pos))
    else
      var acc' := acc * 16 + Field(bits, pos + 1, 4);
      if !bits[pos] then Ok((acc', pos + 5)) else LiteralGroups(bits, pos + 5, acc')
  }

  /** The packet starting at pos and the position just past it. */
  function PacketAt(bits: seq<Bit>, pos: nat): (r: Result<(Packet, nat), DecodeError>)
    requires pos <= |bits|
    ensures r.Ok? ==> pos < r.value.1 <= |bits|
    decreases |bits| - pos, 0
  {
    if pos + 6 > |bits| then Err(Truncated(pos))
    else
      var version, typeId := Field(bits, pos, 3), Field(bits, pos + 3, 3);
      if typeId == 4 then
        match LiteralGroups(bits, pos + 6, 0)
        case Err(e) => Err(e)
        case Ok((v, end)) => Ok((Packet(version, 4, 0, 0, v, []), end))
      else if pos + 7 > |bits| then Err(Truncated(pos + 6))
      else if !bits[pos + 6] then
        if pos + 22 > |bits| then Err(Truncated(pos + 7))
        else
          var len := Field(bits, pos + 7, 15);
          match SubsByLength(bits, pos + 22, pos + 22, len, [])
          case Err(e) => Err(e)
          case Ok((subs, end)) => Ok((Packet(version, typeId, 0, len, 0, subs), end))
      else if pos + 18 > |bits| then Err(Truncated(pos + 7))
      else
        var count := Field(bits, pos + 7, 11);
        match SubsByCount(bits, pos + 18, count, [])
        case Err(e) => Err(e)
        case Ok((subs, end)) => Ok((Packet(version, typeId, 1, count, 0, subs), end))
  }

  /**
   * Length type 0: sub-packets from pos on, after acc, while fewer than len
   * bits have been read since start.
   */
  function SubsByLength(bits: seq<Bit>, start: nat, pos: nat, len: nat, acc: seq<Packet>)
    : (r: Result<(seq<Packet>, nat), DecodeError>)
    requires start <= pos <= |bits|
    ensures r.Ok? ==> pos <= r.value.1 <= |bits| && r.value.1 - start >= len
    decreases |bits| - pos, 1
  {
    if pos - start >= len then Ok((acc, pos))
    else
      match PacketAt(bits, pos)
      case Err(e) => Err(e)
      case Ok((p, next)) =>
        SubsByLength(bits, start, next, len, acc + [p])
  }

  /** Length type 1: exactly n more sub-packets from pos on, after acc. */
  function SubsByCount(bits: seq<Bit>, pos: nat, n: nat, acc: seq<Packet>)
    : (r: Result<(seq<Packet>, nat), DecodeError>)
    requires pos <= |bits|
    ensures r.Ok? ==> pos <= r.value.1 <= |bits| && |r.value.0| == |acc| + n
    decreases |bits| - pos, 1
  {
    if n == 0 then Ok((acc, pos))
    else
      match PacketAt(bits, pos)
      case Err(e) => Err(e)
      case Ok((p, next)) =>
        SubsByCount(bits, next, n - 1, acc + [p])
  }

  /** The smallest multiple of 4 that is at least n. */
  function RoundUp4(n: nat): (m: nat)
    ensures m % 4 == 0 && n <= m < n + 4
  {
    if n % 4 == 0 then n else n + (4 - n % 4)
  }

  predicate AllZeroFrom(bits: seq<Bit>, pos: nat)
  {
    forall k :: pos <= k < |bits| ==> !bits[k]
  }

  /**
   * The outermost packet, the position just past its padding to a multiple
   * of 4 bits, and where the rest of the transmission starts, which is
   * absent when only zero bits follow.
   */
  datatype Transmission = Transmission(packet: Packet, consumed: nat, remaining: Option<nat>)

  function Decode(bits: seq<Bit>): (r: Result<Transmission, DecodeError>)
    ensures r.Ok? ==> r.value.consumed % 4 == 0 && r.value.consumed <= |bits|
    ensures r.Ok? ==> (r.value.remaining.None? <==> AllZeroFrom(bits, r.value.consumed))
    ensures r.Ok? && r.value.remaining.Some? ==> r.value.remaining.value == r.value.consumed < |bits|
  {
    match PacketAt(bits, 0)
    case Err(e) => Err(e)
    case Ok((p, end)) =>
      var padded := RoundUp4(end);
      if padded > |bits| then Err(Truncated(|bits|))
      else if AllZeroFrom(bits, padded) then Ok(Transmission(p, padded, None))
      else Ok(Transmission(p, padded, Some(padded)))
  }

  /** Every packet the reader builds is one the C code can build. */
  lemma {:induction false} PacketAtWellFormed(bits: seq<Bit>, pos: nat)
    requires pos <= |bits|
    ensures PacketAt(bits, pos).Ok? ==> WellFormed(PacketAt(bits, pos).value.0)
    decreases |bits| - pos, 0
  {
    if pos + 6 <= |bits| && Field(bits, pos + 3, 3) != 4 && pos + 7 <= |bits| {
      if !bits[pos + 6] {
        if pos + 22 <= |bits| {
          SubsByLengthWellFormed(bits, pos + 22, pos + 22, Field(bits, pos + 7, 15), []);
        }
      } else if pos + 18 <= |bits| {
        SubsByCountWellFormed(bits, pos + 18, Field(bits, pos + 7, 11), []);
      }
    }
  }

  lemma {:induction false} SubsByLengthWellFormed(bits: seq<Bit>, start: nat, pos: nat, len: nat, acc: seq<Packet>)
    requires start <= pos <= |bits|
    requires AllWellFormed(acc)
    ensures SubsByLength(bits, start, pos, len, acc).Ok? ==> AllWellFormed(SubsByLength(bits, start, pos, len, acc).value.0)
    decreases |bits| - pos, 1
  {
    if pos - start < len {
      PacketAtWellFormed(bits, pos);
      var r := PacketAt(bits, pos);
      if r.Ok? {
        AllWellFormedSnoc(acc, r.value.0);
        SubsByLengthWellFormed(bits, start, r.value.1, len, acc + [r.value.0]);
      }
    }
  }

  lemma {:induction false} SubsByCountWellFormed(bits: seq<Bit>, pos: nat, n: nat, acc: seq<Packet>)
    requires pos <= |bits|
    requires AllWellFormed(acc)
    ensures SubsByCount(bits, pos, n, acc).Ok? ==> AllWellFormed(SubsByCount(bits, pos, n, acc).value.0)
    decreases |bits| - pos, 1
  {
    if n > 0 {
      PacketAtWellFormed(bits, pos);
      var r := PacketAt(bits, pos);
      if r.Ok? {
        AllWellFormedSnoc(acc, r.value.0);
        SubsByCountWellFormed(bits, r.value.1, n - 1, acc + [r.value.0]);
      }
    }
  }

  lemma {:induction false} DecodeWellFormed(bits: seq<Bit>)
    ensures Decode(bits).Ok? ==> WellFormed(Decode(bits).value.packet)
  {
    PacketAtWellFormed(bits, 0);
  }

  /* ---------- The reader, as the C code runs it ---------- */

  /** parse_packet on a sub-packet: the cursor moves through the header, the groups and the sub-packets. */
  method ParsePacket(bits: seq<Bit>, pos: nat) returns (r: Result<(Packet, nat), DecodeError>)
    requires pos <= |bits|
    ensures r == PacketAt(bits, pos)
    decreases |bits| - pos, 0
  {
    if pos + 6 > |bits| {
      return Err(Truncated(pos));
    }
    var version := Field(bits, pos, 3);
    var typeId := Field(bits, pos + 3, 3);
    if typeId == 4 {
      var groups := ReadLiteral(bits, pos + 6);
      if groups.Err? {
        return Err(groups.error);
      }
      return Ok((Packet(version, 4, 0, 0, groups.value.0, []), groups.value.1));
    }
    if pos + 7 > |bits| {
      return Err(Truncated(pos + 6));
    }
    if !bits[pos + 6] {
      if pos + 22 > |bits| {
        return Err(Truncated(pos + 7));
      }
      var len := Field(bits, pos + 7, 15);
      var subs := ReadSubsByLength(bits, pos + 22, len);
      if subs.Err? {
        return Err(subs.error);
      }
      return Ok((Packet(version, typeId, 0, len, 0, subs.value.0), subs.value.1));
    } else {
      if pos + 18 > |bits| {
        return Err(Truncated(pos + 7));
      }
      var count := Field(bits, pos + 7, 11);
      var subs := ReadSubsByCount(bits, pos + 18, count);
      if subs.Err? {
        return Err(subs.error);
      }
      return Ok((Packet(version, typeId, 1, count, 0, subs.value.0), subs.value.1));
    }
  }

  /** The literal loop: a group at a time until one whose first bit is 0. */
  method ReadLiteral(bits: seq<Bit>, pos: nat) returns (r: Result<(nat, nat), DecodeError>)
    requires pos <= |bits|
    ensures r == LiteralGroups(bits, pos, 0)
  {
    var value: nat := 0;
    var cur := pos;
    var last := false;
    while !last
      invariant pos <= cur <= |bits|
      invariant LiteralGroups(bits, pos, 0) == if last then Ok((value, cur)) else LiteralGroups(bits, cur, value)
      decreases |bits| - cur
    {
      if cur + 5 > |bits| {
        return Err(Truncated(cur));
      }
      last := !bits[cur];
      value := value * 16 + Field(bits, cur + 1, 4);
      cur := cur + 5;
    }
    return Ok((value, cur));
  }

  /** Length type 0: parse sub-packets while fewer than len bits have been read since start. */
  method ReadSubsByLength(bits: seq<Bit>, start: nat, len: nat) returns (r: Result<(seq<Packet>, nat), DecodeError>)
    requires start <= |bits|
    ensures r == SubsByLength(bits, start, start, len, [])
    decreases |bits| - start, 1
  {
    var cur := start;
    var subs: seq<Packet> := [];
    while cur - start < len
      invariant start <= cur <= |bits|
      invariant SubsByLength(bits, start, cur, len, subs) == SubsByLength(bits, start, start, len, [])
      decreases |bits| - cur
    {
      var sub := ParsePacket(bits, cur);
      if sub.Err? {
        return Err(sub.error);
      }
      subs := subs + [sub.value.0];
      cur := sub.value.1;
    }
    return Ok((subs, cur));
  }

  /** Length type 1: parse exactly count sub-packets. */
  method ReadSubsByCount(bits: seq<Bit>, start: nat, count: nat) returns (r: Result<(seq<Packet>, nat), DecodeError>)
    requires start <= |bits|
    ensures r == SubsByCount(bits, start, count, [])
    decreases |bits| - start, 1
  {
    var cur := start;
    var subs: seq<Packet> := [];
    for i := 0 to count
      invariant start <= cur <= |bits|
      invariant SubsByCount(bits, cur, count - i, subs) == SubsByCount(bits, start, count, [])
    {
      var sub := ParsePacket(bits, cur);
      if sub.Err? {
        return Err(sub.error);
      }
      subs := subs + [sub.value.0];
      cur := sub.value.1;
    }
    return Ok((subs, cur));
  }

  /** parse_packet on the outermost packet: skip the padding, then look for anything but zeros. */
  method DecodeTransmission(bits: seq<Bit>) returns (r: Result<Transmission, DecodeError>)
    ensures r == Decode(bits)
  {
    var outer := ParsePacket(bits, 0);
    if outer.Err? {
      return Err(outer.error);
    }
    var cur := SkipPadding(outer.value.1);
    if cur > |bits| {
      return Err(Truncated(|bits|));
    }
    var allZeros := IsAllZeros(bits, cur);
    if allZeros {
      r := Ok(Transmission(outer.value.0, cur, None));
    } else {
      r := Ok(Transmission(outer.value.0, cur, Some(cur)));
    }
  }

  /** The padding loop: advance the cursor to the next multiple of 4. */
  method SkipPadding(end: nat) returns (cur: nat)
    ensures cur == RoundUp4(end)
  {
    cur := end;
    while cur % 4 != 0
      invariant end <= cur <= RoundUp4(end)
      decreases RoundUp4(end) - cur
    {
      cur := cur + 1;
    }
  }

  /** The scan for a remainder made only of zeros, stopping at the first 1. */
  method IsAllZeros(bits: seq<Bit>, from: nat) returns (allZeros: bool)
    requires from <= |bits|
    ensures allZeros == AllZeroFrom(bits, from)
  {
    allZeros := true;
    var i := from;
    while i < |bits| && allZeros
      invariant from <= i <= |bits|
      invariant allZeros <==> forall k :: from <= k < i ==> !bits[k]
    {
      allZeros := !bits[i];
      i := i + 1;
    }
  }

  /* ---------- The version sum ---------- */

  /** find_sum_of_version_numbers_in_packet, as a fold over the tree. */
  function VersionSum(p: Packet): nat
    decreases p, 1
  {
    p.version + VersionSums(p.subs)
  }

  function VersionSums(ps: seq<Packet>): nat
    decreases ps, 0
  {
    if ps == [] then 0 else VersionSum(ps[0]) + VersionSums(ps[1..])
  }

  /** Every packet of the tree, each before its sub-packets. */
  function Preorder(p: Packet): (r: seq<Packet>)
    ensures |r| >= 1 && r[0] == p
    decreases p, 1
  {
    [p] + PreorderAll(p.subs)
  }

  function PreorderAll(ps: seq<Packet>): seq<Packet>
    decreases ps, 0
  {
    if ps == [] then [] else Preorder(ps[0]) + PreorderAll(ps[1..])
  }

  /** The sum of the versions of a list of packets, not looking into their sub-packets. */
  function Versions(ps: seq<Packet>): nat
  {
    if ps == [] then 0 else ps[0].version + Versions(ps[1..])
  }

  lemma {:induction false} VersionsConcat(a: seq<Packet>, b: seq<Packet>)
    ensures Versions(a + b) == Versions(a) + Versions(b)
  {
    if a == [] {
      assert a + b == b;
    } else {
      assert (a + b)[1..] == a[1..] + b;
      VersionsConcat(a[1..], b);
    }
  }

  /** The version sum adds the version of every packet in the tree exactly once. */
  lemma {:induction false} VersionSumIsPreorderSum(p: Packet)
    ensures VersionSum(p) == Versions(Preorder(p))
    decreases p, 1
  {
    VersionSumsIsPreorderSum(p.subs);
    VersionsConcat([p], PreorderAll(p.subs));
    assert ([p] + PreorderAll(p.subs))[1..] == PreorderAll(p.subs);
  }

  lemma {:induction false} VersionSumsIsPreorderSum(ps: seq<Packet>)
    ensures VersionSums(ps) == Versions(PreorderAll(ps))
    decreases ps, 0
  {
    if ps != [] {
      VersionSumIsPreorderSum(ps[0]);
      VersionSumsIsPreorderSum(ps[1..]);
      VersionsConcat(Preorder(ps[0]), PreorderAll(ps[1..]));
    }
  }

  lemma {:induction false} VersionSumsSnoc(ps: seq<Packet>, q: Packet)
    ensures VersionSums(ps + [q]) == VersionSums(ps) + VersionSum(q)
    decreases |ps|
  {
    if ps == [] {
      assert ([] + [q])[1..] == [];
    } else {
      assert (ps + [q])[1..] == ps[1..] + [q];
      VersionSumsSnoc(ps[1..], q);
    }
  }

  /** The C loop: the packet's own version, then each sub-packet's sum in turn. */
  method SumOfVersionNumbers(p: Packet) returns (total: nat)
    ensures total == VersionSum(p)
    decreases p
  {
    total := p.version;
    for i := 0 to |p.subs|
      invariant total == p.version + VersionSums(p.subs[..i])
    {
      var sub := SumOfVersionNumbers(p.subs[i]);
      VersionSumsSnoc(p.subs[..i], p.subs[i]);
      assert p.subs[..i + 1] == p.subs[..i] + [p.subs[i]];
      total := total + sub;
    }
    assert p.subs[..|p.subs|] == p.subs;
  }

  /* ---------- The value ---------- */

  /** The assertion of find_value_of_packet that would fail. */
  datatype ValueError =
    | NoSubPackets(typeId: nat)
    | NotTwoSubPackets(typeId: nat)
    | LiteralWithSubPackets
    | UnknownType(typeId: nat)

  function Sum(vs: seq<nat>): nat
  {
    if vs == [] then 0 else Sum(vs[..|vs| - 1]) + vs[|vs| - 1]
  }

  function Product(vs: seq<nat>): nat
  {
    if vs == [] then 1 else Product(vs[..|vs| - 1]) * vs[|vs| - 1]
  }

  /** The running minimum of the C loop, which replaces it only by a strictly smaller value. */
  function Min(vs: seq<nat>): (m: nat)
    requires |vs| >= 1
  {
    if |vs| == 1 then vs[0]
    else
      var m := Min(vs[..|vs| - 1]);
      if vs[|vs| - 1] < m then vs[|vs| - 1] else m
  }

  function Max(vs: seq<nat>): (m: nat)
    requires |vs| >= 1
  {
    if |vs| == 1 then vs[0]
    else
      var m := Max(vs[..|vs| - 1]);
      if vs[|vs| - 1] > m then vs[|vs| - 1] else m
  }

  /** The minimum is one of the values and no value is below it. */
  lemma {:induction false} MinIsLeast(vs: seq<nat>)
    requires |vs| >= 1
    ensures Min(vs) in vs && forall i :: 0 <= i < |vs| ==> Min(vs) <= vs[i]
    decreases |vs|
  {
    if |vs| > 1 {
      var init := vs[..|vs| - 1];
      MinIsLeast(init);
      assert forall i :: 0 <= i < |vs| - 1 ==> vs[i] == init[i];
    }
  }

  /** The maximum is one of the values and no value is above it. */
  lemma {:induction false} MaxIsGreatest(vs: seq<nat>)
    requires |vs| >= 1
    ensures Max(vs) in vs && forall i :: 0 <= i < |vs| ==> vs[i] <= Max(vs)
    decreases |vs|
  {
    if |vs| > 1 {
      var init := vs[..|vs| - 1];
      MaxIsGreatest(init);
      assert forall i :: 0 <= i < |vs| - 1 ==> vs[i] == init[i];
    }
  }

  /**
   * find_value_of_packet.  Types 0 to 3 fold the values of one or more
   * sub-packets by sum, product, minimum and maximum; type 4 is the literal;
   * types 5 to 7 compare exactly two sub-packet values by >, < and ==,
   * giving 1 or 0.  The checks on the number of sub-packets come before any
   * sub-packet is evaluated.
   */
  function Value(p: Packet): Result<nat, ValueError>
    decreases p, 1
  {
    if p.typeId == 4 then
      if p.subs != [] then Err(LiteralWithSubPackets) else Ok(p.literal)
    else if p.typeId <= 3 then
      if p.subs == [] then Err(NoSubPackets(p.typeId))
      else
        match Values(p.subs)
        case Err(e) => Err(e)
        case Ok(vs) =>
          Ok(if p.typeId == 0 then Sum(vs)
             else if p.typeId == 1 then Product(vs)
             else if p.typeId == 2 then Min(vs)
             else Max(vs))
    else if p.typeId <= 7 then
      if |p.subs| != 2 then Err(NotTwoSubPackets(p.typeId))
      else
        match Values(p.subs)
        case Err(e) => Err(e)
        case Ok(vs) =>
          Ok(if p.typeId == 5 then (if vs[0] > vs[1] then 1 else 0)
             else if p.typeId == 6 then (if vs[0] < vs[1] then 1 else 0)
             else (if vs[0] == vs[1] then 1 else 0))
    else Err(UnknownType(p.typeId))
  }

  /** The values of ps in order, or the first failure among them. */
  function Values(ps: seq<Packet>): (r: Result<seq<nat>, ValueError>)
    ensures r.Ok? ==> |r.value| == |ps|
    decreases ps, 0
  {
    if ps == [] then Ok([])
    else
      match Value(ps[0])
      case Err(e) => Err(e)
      case Ok(v) =>
        match Values(ps[1..])
        case Err(e) => Err(e)
        case Ok(vs) => Ok([v] + vs)
  }

  /** The values of a + b: the first failure in a, else the first in b, else both lists of values. */
  lemma {:induction false} ValuesConcat(a: seq<Packet>, b: seq<Packet>)
    ensures Values(a + b) ==
      if Values(a).Err? then Values(a)
      else if Values(b).Err? then Values(b)
      else Ok(Values(a).value + Values(b).value)
    decreases |a|
  {
    if a == [] {
      assert a + b == b;
      if Values(b).Ok? {
        assert [] + Values(b).value == Values(b).value;
      }
    } else {
      assert (a + b)[0] == a[0] && (a + b)[1..] == a[1..] + b;
      ValuesConcat(a[1..], b);
      if Values(a).Ok? && Values(b).Ok? {
        assert [Value(a[0]).value] + (Values(a[1..]).value + Values(b).value)
            == ([Value(a[0]).value] + Values(a[1..]).value) + Values(b).value;
      }
    }
  }

  /** Values succeeds exactly when every packet has a value, and then lists those values. */
  lemma {:induction false} ValuesElementwise(ps: seq<Packet>)
    ensures Values(ps).Ok? <==> forall i :: 0 <= i < |ps| ==> Value(ps[i]).Ok?
    ensures Values(ps).Ok? ==> forall i :: 0 <= i < |ps| ==> Value(ps[i]) == Ok(Values(ps).value[i])
    decreases |ps|
  {
    if ps != [] {
      ValuesElementwise(ps[1..]);
      assert forall i :: 1 <= i < |ps| ==> ps[i] == ps[1..][i - 1];
    }
  }

  /** One step of the C loop: the values of the first i + 1 sub-packets, from those of the first i. */
  lemma {:induction false} ValuesStep(ps: seq<Packet>, i: nat)
    requires i < |ps|
    ensures Values(ps[..i + 1]) ==
      if Values(ps[..i]).Err? then Values(ps[..i])
      else if Value(ps[i]).Err? then Err(Value(ps[i]).error)
      else Ok(Values(ps[..i]).value + [Value(ps[i]).value])
  {
    assert ps[..i + 1] == ps[..i] + [ps[i]];
    ValuesConcat(ps[..i], [ps[i]]);
    assert [ps[i]][1..] == [];
    if Value(ps[i]).Ok? {
      assert [Value(ps[i]).value] + [] == [Value(ps[i]).value];
    }
  }

  /** A failure among the first i sub-packets is the failure of them all. */
  lemma {:induction false} ValuesPrefixErr(ps: seq<Packet>, i: nat)
    requires i <= |ps| && Values(ps[..i]).Err?
    ensures Values(ps) == Values(ps[..i])
  {
    assert ps == ps[..i] + ps[i..];
    ValuesConcat(ps[..i], ps[i..]);
  }

  /** The accumulator of the fold for type 0, 1, 2 or 3 over values vs. */
  function Fold(typeId: nat, vs: seq<nat>): nat
    requires typeId <= 3 && (typeId >= 2 ==> |vs| >= 1)
  {
    if typeId == 0 then Sum(vs) else if typeId == 1 then Product(vs) else if typeId == 2 then Min(vs) else Max(vs)
  }

  /** find_value_of_packet, with its loops over the sub-packets. */
  method FindValue(p: Packet) returns (r: Result<nat, ValueError>)
    ensures r == Value(p)
    decreases p, 1
  {
    if p.typeId == 4 {
      if p.subs != [] {
        return Err(LiteralWithSubPackets);
      }
      return Ok(p.literal);
    } else if p.typeId <= 3 {
      if p.subs == [] {
        return Err(NoSubPackets(p.typeId));
      }
      r := FoldSubValues(p);
    } else if p.typeId <= 7 {
      if |p.subs| != 2 {
        return Err(NotTwoSubPackets(p.typeId));
      }
      var subs := p.subs;
      assert subs[..0] == [] && subs[..2] == subs;
      var first := FindValue(subs[0]);
      ValuesStep(subs, 0);
      if first.Err? {
        ValuesPrefixErr(subs, 1);
        return Err(first.error);
      }
      assert [] + [first.value] == [first.value];
      var second := FindValue(subs[1]);
      ValuesStep(subs, 1);
      if second.Err? {
        return Err(second.error);
      }
      assert Values(subs) == Ok([first.value] + [second.value]);
      if p.typeId == 5 {
        r := Ok(if first.value > second.value then 1 else 0);
      } else if p.typeId == 6 {
        r := Ok(if first.value < second.value then 1 else 0);
      } else {
        r := Ok(if first.value == second.value then 1 else 0);
      }
    } else {
      r := Err(UnknownType(p.typeId));
    }
  }

  /** Cases 0 to 3: sum and product start from 0 and 1, minimum and maximum from the first sub-packet. */
  method FoldSubValues(p: Packet) returns (r: Result<nat, ValueError>)
    requires p.typeId <= 3 && p.subs != []
    ensures r == Value(p)
    decreases p, 0
  {
    var subs := p.subs;
    var acc: nat;
    var start: nat;
    ghost var vs: seq<nat>;
    assert subs[..0] == [];
    if p.typeId <= 1 {
      acc, start, vs := if p.typeId == 0 then 0 else 1, 0, [];
    } else {
      var first := FindValue(subs[0]);
      ValuesStep(subs, 0);
      if first.Err? {
        ValuesPrefixErr(subs, 1);
        return Err(first.error);
      }
      acc, start, vs := first.value, 1, [first.value];
      assert [] + [first.value] == [first.value];
    }
    for i := start to |subs|
      invariant Values(subs[..i]) == Ok(vs)
      invariant p.typeId >= 2 ==> |vs| >= 1
      invariant acc == Fold(p.typeId, vs)
    {
      var v := FindValue(subs[i]);
      ValuesStep(subs, i);
      if v.Err? {
        ValuesPrefixErr(subs, i + 1);
        return Err(v.error);
      }
      assert (vs + [v.value])[..|vs|] == vs;
      if p.typeId == 0 {
        acc := acc + v.value;
      } else if p.typeId == 1 {
        acc := acc * v.value;
      } else if p.typeId == 2 {
        if v.value < acc {
          acc := v.value;
        }
      } else {
        if v.value > acc {
          acc := v.value;
        }
      }
      vs := vs + [v.value];
    }
    assert subs[..|subs|] == subs;
    r := Ok(acc);
  }

  /** A minimum or maximum packet takes the value of one of its sub-packets, and bounds all of theirs. */
  lemma {:induction false} ValueOfMinMax(p: Packet)
    requires (p.typeId == 2 || p.typeId == 3) && Value(p).Ok?
    ensures exists i :: 0 <= i < |p.subs| && Value(p.subs[i]) == Value(p)
    ensures forall i :: 0 <= i < |p.subs| ==> Value(p.subs[i]).Ok?
    ensures p.typeId == 2 ==> forall i :: 0 <= i < |p.subs| ==> Value(p).value <= Value(p.subs[i]).value
    ensures p.typeId == 3 ==> forall i :: 0 <= i < |p.subs| ==> Value(p.subs[i]).value <= Value(p).value
  {
    var vs := Values(p.subs).value;
    ValuesElementwise(p.subs);
    if p.typeId == 2 {
      MinIsLeast(vs);
    } else {
      MaxIsGreatest(vs);
    }
    var k :| 0 <= k < |vs| && vs[k] == Value(p).value;
    assert Value(p.subs[k]) == Value(p);
  }

  /** Every entry is at most the sum. */
  lemma {:induction false} SumBoundsEach(vs: seq<nat>, i: nat)
    requires i < |vs|
    ensures vs[i] <= Sum(vs)
  {
    if i < |vs| - 1 {
      SumBoundsEach(vs[..|vs| - 1], i);
    }
  }

  /** The product is 0 exactly when some entry is 0. */
  lemma {:induction false} ProductZero(vs: seq<nat>)
    ensures Product(vs) == 0 <==> exists i :: 0 <= i < |vs| && vs[i] == 0
  {
    if vs != [] {
      var init := vs[..|vs| - 1];
      ProductZero(init);
      if Product(init) == 0 {
        var i :| 0 <= i < |init| && init[i] == 0;
        assert vs[i] == 0;
      }
      if exists i :: 0 <= i < |vs| && vs[i] == 0 {
        var i :| 0 <= i < |vs| && vs[i] == 0;
        if i < |init| {
          assert init[i] == 0;
        }
      }
    }
  }

  /**
   * A sum or product packet has one or more sub-packets, all with values:
   * a sum is at least each of them, and a product is 0 exactly when one of
   * them is.
   */
  lemma {:induction false} ValueOfSumProduct(p: Packet)
    requires (p.typeId == 0 || p.typeId == 1) && Value(p).Ok?
    ensures |p.subs| >= 1 && forall i :: 0 <= i < |p.subs| ==> Value(p.subs[i]).Ok?
    ensures p.typeId == 0 ==> forall i :: 0 <= i < |p.subs| ==> Value(p.subs[i]).value <= Value(p).value
    ensures p.typeId == 1 ==> (Value(p).value == 0 <==> exists i :: 0 <= i < |p.subs| && Value(p.subs[i]).value == 0)
  {
    ValuesElementwise(p.subs);
    var vs := Values(p.subs).value;
    if p.typeId == 0 {
      forall i | 0 <= i < |p.subs|
        ensures Value(p.subs[i]).value <= Value(p).value
      {
        SumBoundsEach(vs, i);
      }
    } else {
      ProductZero(vs);
      if exists i :: 0 <= i < |p.subs| && Value(p.subs[i]).value == 0 {
        var i :| 0 <= i < |p.subs| && Value(p.subs[i]).value == 0;
        assert vs[i] == 0;
      }
    }
  }
}
