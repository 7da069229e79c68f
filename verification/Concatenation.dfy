/**
 * Messages one after the other in the same input: decoding goes on in the second where the first
 * ended, so scalars of the second replace those of the first and everything else merges.
 */
module Concatenation {
  import opened Bytes
  import opened Varint
  import opened Message
  import opened Wire

  // ----- More input after a field does not change how the field is read

  lemma NumStable(k: Kind, dataSize: nat, s: seq<Byte>, t: seq<Byte>)
    requires IsNumeric(k) && DecodeNum(k, dataSize, s).Ok?
    ensures DecodeNum(k, dataSize, s + t) == Ok(DecodeNum(k, dataSize, s).value, DecodeNum(k, dataSize, s).rest + t)
  {
    hide DecodeVarint, DecodeVarint32;
    VarintExtend(s, t);
    if k.Fixed32? {
      assert (s + t)[..4] == s[..4] && (s + t)[4..] == s[4..] + t;
    } else if k.Fixed64? {
      assert (s + t)[..8] == s[..8] && (s + t)[8..] == s[8..] + t;
    }
  }

  lemma DelimitedStable(s: seq<Byte>, t: seq<Byte>)
    requires DecodeDelimited(s).Ok?
    ensures DecodeDelimited(s + t) == Ok(DecodeDelimited(s).value, DecodeDelimited(s).rest + t)
  {
    hide DecodeVarint, DecodeVarint32;
    VarintExtend(s, t);
    var n, rest := DecodeVarint32(s).value, DecodeVarint32(s).rest;
    assert (rest + t)[..n] == rest[..n] && (rest + t)[n..] == rest[n..] + t;
  }

  lemma SkipStable(wt: nat, s: seq<Byte>, t: seq<Byte>)
    requires SkipField(wt, s).Ok?
    ensures SkipField(wt, s + t) == Ok((), SkipField(wt, s).rest + t)
  {
    hide DecodeDelimited, VarintLength;
    if wt == WT_VARINT {
      VarintLengthExtend(s, t);
      var n := VarintLength(s);
      assert (s + t)[n..] == s[n..] + t;
    } else if wt == WT_STRING {
      DelimitedStable(s, t);
    } else if wt == WT_64BIT {
      assert (s + t)[8..] == s[8..] + t;
    } else {
      assert (s + t)[4..] == s[4..] + t;
    }
  }

  lemma ValueStable(f: Field, prior: Value, wt: nat, s: seq<Byte>, t: seq<Byte>)
    requires FieldOk(f) && TypedValue(f, prior) && DecodeValue(f, prior, wt, s).Ok?
    ensures DecodeValue(f, prior, wt, s + t) ==
              Ok(DecodeValue(f, prior, wt, s).value, DecodeValue(f, prior, wt, s).rest + t)
  {
    hide DecodeNum, DecodeDelimited, DecodeMsg;
    if IsNumeric(f.kind) {
      NumStable(f.kind, f.dataSize, s, t);
    } else {
      DelimitedStable(s, t);
    }
  }

  lemma FieldStable(f: Field, slot: Slot, wt: nat, s: seq<Byte>, t: seq<Byte>)
    requires FieldOk(f) && TypedSlot(f, slot) && DecodeField(f, slot, wt, s).Ok?
    ensures DecodeField(f, slot, wt, s + t) ==
              Ok(DecodeField(f, slot, wt, s).value, DecodeField(f, slot, wt, s).rest + t)
  {
    hide DecodeDelimited, DecodeValue;
    if !f.rule.Repeated? {
      ValueStable(f, slot.v, wt, s, t);
    } else if wt == WT_STRING && IsNumeric(f.kind) {
      DelimitedStable(s, t);
    } else {
      DefaultTypedValue(f);
      ValueStable(f, DefaultValue(f), wt, s, t);
    }
  }

  /** One turn of the field loop. */
  function Turn(fs: seq<Field>, p: Progress, s: seq<Byte>): (r: Parsed<Progress>)
    requires FieldsOk(fs) && TypedMsg(fs, p.m)
    ensures r.Ok? ==> TypedMsg(fs, r.value.m) && |r.rest| < |s|
  {
    match DecodeVarint32(s)
    case Fail => Fail
    case Ok(key, rest) =>
      if key / 8 == 0 then Fail else TakeField(fs, p, key / 8, key % 8, rest)
  }

  lemma FieldsByTurns(fs: seq<Field>, p: Progress, s: seq<Byte>, nt: bool)
    requires FieldsOk(fs) && TypedMsg(fs, p.m) && s != []
    ensures Turn(fs, p, s).Ok? ==>
              DecodeFields(fs, p, s, nt) == DecodeFields(fs, Turn(fs, p, s).value, Turn(fs, p, s).rest, nt)
    ensures Turn(fs, p, s).Fail? && !nt ==> DecodeFields(fs, p, s, nt) == Fail
  {
    hide DecodeVarint32, TakeField;
  }

  lemma TurnStable(fs: seq<Field>, p: Progress, s: seq<Byte>, t: seq<Byte>)
    requires FieldsOk(fs) && TypedMsg(fs, p.m) && Turn(fs, p, s).Ok?
    ensures Turn(fs, p, s + t) == Ok(Turn(fs, p, s).value, Turn(fs, p, s).rest + t)
  {
    VarintExtend(s, t);
    hide DecodeVarint32, SkipField, DecodeField, Seen;
    var key, rest := DecodeVarint32(s).value, DecodeVarint32(s).rest;
    if IndexOf(fs, key / 8).None? {
      SkipStable(key % 8, rest, t);
    } else {
      var i := IndexOf(fs, key / 8).value;
      FieldsOkAt(fs, i);
      TypedAt(fs, p.m, i);
      FieldStable(fs[i], p.m[i], key % 8, rest, t);
    }
  }

  /** Without null termination, decoding that succeeds has used every byte, and goes on in what follows. */
  lemma {:induction false} FieldsContinue(fs: seq<Field>, p: Progress, s: seq<Byte>, t: seq<Byte>, nt: bool)
    requires FieldsOk(fs) && TypedMsg(fs, p.m) && DecodeFields(fs, p, s, false).Ok?
    ensures DecodeFields(fs, p, s, false).rest == []
    ensures DecodeFields(fs, p, s + t, nt) == DecodeFields(fs, DecodeFields(fs, p, s, false).value, t, nt)
    decreases |s|
  {
    if s == [] {
      assert s + t == t;
    } else {
      FieldsByTurns(fs, p, s, false);
      TurnStable(fs, p, s, t);
      FieldsByTurns(fs, p, s + t, nt);
      hide Turn, DecodeFields;
      FieldsContinue(fs, Turn(fs, p, s).value, Turn(fs, p, s).rest, t, nt);
    }
  }

  lemma UsesAllInput(fs: seq<Field>, m: seq<Slot>, s: seq<Byte>)
    requires FieldsOk(fs) && TypedMsg(fs, m)
    ensures DecodeMsg(fs, m, s, false).Ok? ==> DecodeMsg(fs, m, s, false).rest == []
  {
    if DecodeMsg(fs, m, s, false).Ok? {
      FieldsContinue(fs, Progress(m, {}), s, [], false);
    }
  }

  lemma TurnSeen(fs: seq<Field>, m: seq<Slot>, seen: set<nat>, s: seq<Byte>)
    requires FieldsOk(fs) && TypedMsg(fs, m)
    ensures var a, b := Turn(fs, Progress(m, {}), s), Turn(fs, Progress(m, seen), s);
            && a.Ok? == b.Ok?
            && (a.Ok? ==> b.value.m == a.value.m && b.rest == a.rest && b.value.seen == seen + a.value.seen)
  {
    hide DecodeVarint32, IndexOf, SkipField, DecodeField;
  }

  /** What is already marked as seen has no influence on the decoding and stays marked. */
  lemma {:induction false} SeenShift(fs: seq<Field>, m: seq<Slot>, seen: set<nat>, s: seq<Byte>, nt: bool)
    requires FieldsOk(fs) && TypedMsg(fs, m)
    ensures var a, b := DecodeFields(fs, Progress(m, {}), s, nt), DecodeFields(fs, Progress(m, seen), s, nt);
            && a.Ok? == b.Ok?
            && (a.Ok? ==> b.value.m == a.value.m && b.rest == a.rest && b.value.seen == seen + a.value.seen)
    decreases |s|
  {
    if s == [] {
    } else {
      FieldsByTurns(fs, Progress(m, {}), s, nt);
      FieldsByTurns(fs, Progress(m, seen), s, nt);
      var a, b := Turn(fs, Progress(m, {}), s), Turn(fs, Progress(m, seen), s);
      TurnSeen(fs, m, seen, s);
      if a.Ok? {
        hide Turn, DecodeFields;
        var m', now := a.value.m, a.value.seen;
        SeenShift(fs, m', now, a.rest, nt);
        SeenShift(fs, m', seen + now, a.rest, nt);
        assert Progress(m', now) == a.value && Progress(m', seen + now) == b.value;
        var r := DecodeFields(fs, Progress(m', {}), a.rest, nt);
        assert r.Ok? ==> seen + now + r.value.seen == seen + (now + r.value.seen);
      }
    }
  }

  /** What has been marked as seen stays so: with more of it, no required field is missing that was not before. */
  lemma AllSeenGrows(fs: seq<Field>, seen: set<nat>, more: set<nat>)
    requires AllSeen(fs, seen)
    ensures AllSeen(fs, seen + more)
  {
  }

  /**
   * If a decodes into m, then a followed by b decodes into m exactly when the fields of b parse over
   * the result, and that is its outcome: a has shown every required field already.
   */
  lemma ConcatenationMerges(fs: seq<Field>, m: seq<Slot>, a: seq<Byte>, b: seq<Byte>)
    requires FieldsOk(fs) && TypedMsg(fs, m) && DecodeMsg(fs, m, a, false).Ok?
    ensures var first := DecodeMsg(fs, m, a, false).value;
            var second := DecodeFields(fs, Progress(first, {}), b, false);
            && DecodeMsg(fs, m, a + b, false).Ok? == second.Ok?
            && (second.Ok? ==> DecodeMsg(fs, m, a + b, false) == Ok(second.value.m, []))
            && (DecodeMsg(fs, first, b, false).Ok? ==> DecodeMsg(fs, m, a + b, false) == DecodeMsg(fs, first, b, false))
  {
    var p := DecodeFields(fs, Progress(m, {}), a, false).value;
    FieldsContinue(fs, Progress(m, {}), a, b, false);
    SeenShift(fs, p.m, p.seen, b, false);
    assert Progress(p.m, p.seen) == p;
    var second := DecodeFields(fs, Progress(p.m, {}), b, false);
    if second.Ok? {
      FieldsContinue(fs, Progress(p.m, {}), b, [], false);
      AllSeenGrows(fs, p.seen, second.value.seen);
    }
    hide DecodeFields, AllSeen;
  }
}
