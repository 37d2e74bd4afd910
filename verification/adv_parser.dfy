/**
 * The advertisement-record walker of main.py (`parse_adv_data`).
 *
 * A BLE advertising payload is a run of AD structures, each laid out as
 * `[length][AD type][length - 1 data bytes]` (Bluetooth Core Specification,
 * Volume 3, Part C, section 11). The walker returns the first Local Name it can
 * decode, "Decode Error" if it only met names it could not decode, and
 * "Unknown" otherwise.
 *
 * The model is layered:
 *  - `Walk` / `ParseAdvData` follow the source's cursor loop step by step;
 *  - `Split` frames a payload into AD structures, `Serialize` is its inverse;
 *  - `SpecName` says declaratively which name a list of structures yields;
 *  - `ParseAdvDataMatchesSpec` ties the cursor walk to that specification.
 */
module AdvParser {
  import opened Wrappers
  import opened Bytes

  /** AD type "Shortened Local Name". */
  const ShortenedLocalName: byte := 0x08
  /** AD type "Complete Local Name". */
  const CompleteLocalName: byte := 0x09

  const Unknown: string := "Unknown"
  const DecodeError: string := "Decode Error"

  /** A strict UTF-8 decoder: `None` stands for a raised UnicodeDecodeError. */
  type Decoder = seq<byte> -> Option<string>

  predicate IsNameType(adType: byte) {
    adType == CompleteLocalName || adType == ShortenedLocalName
  }

  function Min(a: int, b: int): int {
    if a <= b then a else b
  }

  /**
   * Python's slice `s[lo:hi]` for non-negative bounds: both bounds are clamped
   * to the length and an inverted range is empty, so it never fails.
   */
  function PySlice<T>(s: seq<T>, lo: nat, hi: nat): (r: seq<T>)
    ensures |r| == if Min(hi, |s|) <= lo then 0 else Min(hi, |s|) - lo
    ensures forall k :: 0 <= k < |r| ==> lo + k < |s| && r[k] == s[lo + k]
  {
    if Min(hi, |s|) <= lo then [] else s[lo..Min(hi, |s|)]
  }

  // ---------------------------------------------------------------------------
  // The cursor walk, as written in the source
  // ---------------------------------------------------------------------------

  /**
   * One run of the `while` loop from cursor `i` with the current `name`.
   * A successful decode of a name structure ends the walk; a failed one sets
   * the name to "Decode Error" and the walk goes on.
   */
  function Walk(adv: seq<byte>, i: nat, name: string, decode: Decoder): string
    decreases |adv| - i
  {
    if i >= |adv| || i + 1 >= |adv| then name
    else
      var length := adv[i] as int;
      var adType := adv[i + 1];
      if length == 0 then name
      else
        var data := PySlice(adv, i + 2, i + 1 + length);
        if IsNameType(adType) then
          match decode(data)
          case Some(s) => s
          case None => Walk(adv, i + length + 1, DecodeError, decode)
        else
          Walk(adv, i + length + 1, name, decode)
  }

  /** `parse_adv_data`: the walk from offset 0, with an empty name read as "Unknown". */
  function ParseAdvData(adv: seq<byte>, decode: Decoder): (r: string)
    ensures r != ""
    ensures |adv| < 2 || adv[0] == 0 ==> r == Unknown
  {
    var name := Walk(adv, 0, "", decode);
    if name != "" then name else Unknown
  }

  /** The same walk as an imperative loop with early exits. */
  method ParseAdvDataLoop(adv: seq<byte>, decode: Decoder) returns (r: string)
    ensures r == SpecName(Split(adv), decode)
    ensures r == ParseAdvData(adv, decode)
  {
    var name := "";
    var i := 0;
    while i < |adv|
      invariant name == "" || name == DecodeError
      invariant Walk(adv, i, name, decode) == Walk(adv, 0, "", decode)
      decreases |adv| - i
    {
      if i + 1 >= |adv| {
        break;
      }
      var length := adv[i] as int;
      var adType := adv[i + 1];
      if length == 0 {
        break;
      }
      var data := PySlice(adv, i + 2, i + 1 + length);
      if IsNameType(adType) {
        match decode(data)
        case Some(s) =>
          name := s;
          break;
        case None =>
          name := DecodeError;
      }
      i := i + length + 1;
    }
    assert name == Walk(adv, 0, "", decode);
    r := if name != "" then name else Unknown;
    ParseAdvDataMatchesSpec(adv, decode);
  }

  // ---------------------------------------------------------------------------
  // AD structures: framing and its inverse
  // ---------------------------------------------------------------------------

  /**
   * One AD structure as the walker sees it: the declared length, the AD type
   * and the data bytes actually present (fewer than declared when the payload
   * ends early).
   */
  datatype AdStructure = AdStructure(length: byte, adType: byte, data: seq<byte>)

  /** A structure whose declared length matches its data, as a sender lays it out. */
  predicate WellFormed(st: AdStructure) {
    st.length as int == |st.data| + 1
  }

  /**
   * The AD structures the walker visits from cursor `i`, in order: framing
   * stops at fewer than two bytes left or at a zero length, and a length
   * overrunning the payload keeps only the bytes that are there.
   */
  function SplitFrom(adv: seq<byte>, i: nat): (recs: seq<AdStructure>)
    ensures 2 * |recs| <= if i <= |adv| then |adv| - i else 0
    decreases |adv| - i
  {
    if i + 1 >= |adv| || adv[i] == 0 then []
    else
      var n := adv[i] as int;
      [AdStructure(adv[i], adv[i + 1], PySlice(adv, i + 2, i + 1 + n))] + SplitFrom(adv, i + n + 1)
  }

  /** The AD structures of a whole payload. */
  function Split(adv: seq<byte>): seq<AdStructure> {
    SplitFrom(adv, 0)
  }

  /**
   * Every structure the walker visits has a non-zero length, and its data never
   * holds more than the declared length allows: a slice cut short, never a
   * read past the payload.
   */
  lemma {:induction false} SplitStructuresBounded(adv: seq<byte>, i: nat, k: nat)
    requires k < |SplitFrom(adv, i)|
    ensures SplitFrom(adv, i)[k].length != 0
    ensures |SplitFrom(adv, i)[k].data| < SplitFrom(adv, i)[k].length as int
    ensures |SplitFrom(adv, i)[k].data| <= |adv| - i - 2
    decreases |adv| - i
  {
    if k > 0 {
      SplitStructuresBounded(adv, i + adv[i] as int + 1, k - 1);
    }
  }

  /** Slicing behind a prefix is slicing the rest at shifted bounds. */
  lemma PySliceBehind<T>(p: seq<T>, rest: seq<T>, lo: nat, hi: nat)
    ensures PySlice(p + rest, |p| + lo, |p| + hi) == PySlice(rest, lo, hi)
  {
    var a := PySlice(p + rest, |p| + lo, |p| + hi);
    var b := PySlice(rest, lo, hi);
    assert |a| == |b|;
    forall k | 0 <= k < |a|
      ensures a[k] == b[k]
    {
      assert a[k] == (p + rest)[|p| + lo + k] == rest[lo + k];
    }
  }

  /** One step of framing from a cursor that has a structure to read, the next cursor named by the caller. */
  lemma SplitFromStep(adv: seq<byte>, i: nat, next: nat)
    requires i + 1 < |adv| && adv[i] != 0
    requires next == i + adv[i] as int + 1
    ensures SplitFrom(adv, i) ==
      [AdStructure(adv[i], adv[i + 1], PySlice(adv, i + 2, next))] + SplitFrom(adv, next)
  {
  }

  /** Framing behind a prefix does not look at the prefix. */
  lemma {:induction false} SplitFromBehind(p: seq<byte>, rest: seq<byte>, j: nat)
    ensures SplitFrom(p + rest, |p| + j) == SplitFrom(rest, j)
    decreases |rest| - j
  {
    if j + 1 < |rest| && rest[j] != 0 {
      var j' := j + rest[j] as int + 1;
      SplitFromBehind(p, rest, j');
      SplitFromBehindStep(p, rest, j, j');
    } else {
      SplitFromBehindEnd(p, rest, j);
    }
  }

  /** The inductive step of `SplitFromBehind`, given the claim for the next cursor `j'`. */
  lemma SplitFromBehindStep(p: seq<byte>, rest: seq<byte>, j: nat, j': nat)
    requires j + 1 < |rest| && rest[j] != 0
    requires j' == j + rest[j] as int + 1
    requires SplitFrom(p + rest, |p| + j') == SplitFrom(rest, j')
    ensures SplitFrom(p + rest, |p| + j) == SplitFrom(rest, j)
  {
    var adv := p + rest;
    var i := |p| + j;
    assert adv[i] == rest[j] && adv[i + 1] == rest[j + 1];
    SplitFromStep(adv, i, |p| + j');
    SplitFromStep(rest, j, j');
    PySliceBehind(p, rest, j + 2, j');
  }

  lemma SplitFromBehindEnd(p: seq<byte>, rest: seq<byte>, j: nat)
    requires !(j + 1 < |rest| && rest[j] != 0)
    ensures SplitFrom(p + rest, |p| + j) == SplitFrom(rest, j) == []
  {
    if j + 1 < |rest| {
      assert (p + rest)[|p| + j] == rest[j];
    }
  }

  function Encode(st: AdStructure): seq<byte> {
    [st.length, st.adType] + st.data
  }

  /** Lays AD structures out back to back. */
  function Serialize(recs: seq<AdStructure>): seq<byte> {
    if recs == [] then [] else Encode(recs[0]) + Serialize(recs[1..])
  }

  /** A well-formed structure in front of any payload is framed as itself. */
  lemma SplitEncodePrefix(st: AdStructure, rest: seq<byte>)
    requires WellFormed(st)
    ensures Split(Encode(st) + rest) == [st] + Split(rest)
  {
    var e := Encode(st);
    var adv := e + rest;
    var n := st.length as int;
    assert adv[0] == st.length && adv[1] == st.adType;
    assert PySlice(adv, 2, 1 + n) == st.data by {
      assert adv[2..n + 1] == st.data;
    }
    SplitFromBehind(e, rest, 0);
    assert |e| + 0 == n + 1;
  }

  /** Framing undoes serialisation of well-formed structures. */
  lemma {:induction false} SplitSerialize(recs: seq<AdStructure>)
    requires forall k :: 0 <= k < |recs| ==> WellFormed(recs[k])
    ensures Split(Serialize(recs)) == recs
    decreases |recs|
  {
    if recs != [] {
      SplitEncodePrefix(recs[0], Serialize(recs[1..]));
      SplitSerialize(recs[1..]);
    }
  }

  /**
   * A declared length running past the end of the payload is cut to the bytes
   * that are there and ends the framing; nothing is read out of bounds.
   */
  lemma OverrunIsTruncated(adv: seq<byte>)
    requires |adv| >= 2 && adv[0] != 0
    requires adv[0] as int + 1 > |adv|
    ensures Split(adv) == [AdStructure(adv[0], adv[1], adv[2..])]
  {
    assert PySlice(adv, 2, 1 + adv[0] as int) == adv[2..];
  }

  // ---------------------------------------------------------------------------
  // Declarative specification of the resulting name
  // ---------------------------------------------------------------------------

  predicate DecodesAt(recs: seq<AdStructure>, k: int, decode: Decoder)
    requires 0 <= k < |recs|
  {
    IsNameType(recs[k].adType) && decode(recs[k].data).Some?
  }

  predicate HasNameRecord(recs: seq<AdStructure>) {
    exists k :: 0 <= k < |recs| && IsNameType(recs[k].adType)
  }

  /** The decoded text of the first name structure that decodes, if any. */
  function FirstDecoded(recs: seq<AdStructure>, decode: Decoder): Option<string> {
    if recs == [] then None
    else if IsNameType(recs[0].adType) && decode(recs[0].data).Some? then decode(recs[0].data)
    else FirstDecoded(recs[1..], decode)
  }

  /** `FirstDecoded` picks exactly the earliest name structure that decodes. */
  lemma {:induction false} FirstDecodedCharacterization(recs: seq<AdStructure>, decode: Decoder, s: string)
    ensures FirstDecoded(recs, decode) == Some(s) <==>
      exists k :: 0 <= k < |recs| && DecodesAt(recs, k, decode) && decode(recs[k].data) == Some(s) &&
        forall j :: 0 <= j < k ==> !DecodesAt(recs, j, decode)
    decreases |recs|
  {
    if recs != [] {
      FirstDecodedCharacterization(recs[1..], decode, s);
      if FirstDecoded(recs, decode) == Some(s) {
        if !DecodesAt(recs, 0, decode) {
          var k' :| 0 <= k' < |recs[1..]| && DecodesAt(recs[1..], k', decode) &&
            decode(recs[1..][k'].data) == Some(s) &&
            forall j :: 0 <= j < k' ==> !DecodesAt(recs[1..], j, decode);
          assert DecodesAt(recs, k' + 1, decode);
          forall j | 0 <= j < k' + 1
            ensures !DecodesAt(recs, j, decode)
          {
            if j > 0 {
              assert !DecodesAt(recs[1..], j - 1, decode);
            }
          }
        }
      } else {
        forall k | 0 <= k < |recs| && DecodesAt(recs, k, decode) && decode(recs[k].data) == Some(s)
          ensures exists j :: 0 <= j < k && DecodesAt(recs, j, decode)
        {
          if !DecodesAt(recs, 0, decode) {
            assert k > 0 && DecodesAt(recs[1..], k - 1, decode);
            assert recs[1..][k - 1] == recs[k];
            var j' :| 0 <= j' < k - 1 && DecodesAt(recs[1..], j', decode);
            assert DecodesAt(recs, j' + 1, decode);
          } else {
            assert k != 0;
          }
        }
      }
    }
  }

  /**
   * The name a list of AD structures yields: the first name that decodes
   * (an empty one reads as "Unknown"); otherwise "Decode Error" if there was a
   * name structure at all; otherwise "Unknown".
   */
  function SpecName(recs: seq<AdStructure>, decode: Decoder): string {
    match FirstDecoded(recs, decode)
    case Some(s) => if s != "" then s else Unknown
    case None => if HasNameRecord(recs) then DecodeError else Unknown
  }

  lemma HasNameRecordCons(st: AdStructure, tail: seq<AdStructure>)
    ensures HasNameRecord([st] + tail) <==> IsNameType(st.adType) || HasNameRecord(tail)
  {
    var recs := [st] + tail;
    if HasNameRecord(tail) {
      var k :| 0 <= k < |tail| && IsNameType(tail[k].adType);
      assert recs[k + 1] == tail[k];
    }
    if HasNameRecord(recs) && !IsNameType(st.adType) {
      var k :| 0 <= k < |recs| && IsNameType(recs[k].adType);
      assert recs[0] == st;
      assert tail[k - 1] == recs[k];
    }
  }

  lemma FirstDecodedCons(st: AdStructure, tail: seq<AdStructure>, decode: Decoder)
    ensures FirstDecoded([st] + tail, decode) ==
      if IsNameType(st.adType) && decode(st.data).Some? then decode(st.data) else FirstDecoded(tail, decode)
  {
    assert ([st] + tail)[1..] == tail;
  }

  /** One iteration of the loop body that reads a structure. */
  lemma WalkStep(adv: seq<byte>, i: nat, name: string, decode: Decoder)
    requires i + 1 < |adv| && adv[i] != 0
    ensures var next := i + adv[i] as int + 1;
      var data := PySlice(adv, i + 2, i + 1 + adv[i] as int);
      && SplitFrom(adv, i) == [AdStructure(adv[i], adv[i + 1], data)] + SplitFrom(adv, next)
      && Walk(adv, i, name, decode) ==
        if !IsNameType(adv[i + 1]) then Walk(adv, next, name, decode)
        else if decode(data).Some? then decode(data).value
        else Walk(adv, next, DecodeError, decode)
  {
  }

  /**
   * What the walk yields on the structures `recs` when it carries `name` in:
   * the first decoded name, or else "Decode Error" once a name structure has
   * been met, or else the empty name.
   */
  function Outcome(recs: seq<AdStructure>, name: string, decode: Decoder): string {
    match FirstDecoded(recs, decode)
    case Some(s) => s
    case None => if name == DecodeError || HasNameRecord(recs) then DecodeError else ""
  }

  /** A structure that is not a name passes the carried name on. */
  lemma OutcomeSkip(st: AdStructure, tail: seq<AdStructure>, name: string, decode: Decoder)
    requires !IsNameType(st.adType)
    ensures Outcome([st] + tail, name, decode) == Outcome(tail, name, decode)
  {
    HasNameRecordCons(st, tail);
    FirstDecodedCons(st, tail, decode);
  }

  /** A name structure that decodes gives its text. */
  lemma OutcomeHit(st: AdStructure, tail: seq<AdStructure>, name: string, decode: Decoder)
    requires IsNameType(st.adType) && decode(st.data).Some?
    ensures Outcome([st] + tail, name, decode) == decode(st.data).value
  {
    FirstDecodedCons(st, tail, decode);
  }

  /** A name structure that fails to decode carries "Decode Error" on. */
  lemma OutcomeMiss(st: AdStructure, tail: seq<AdStructure>, name: string, decode: Decoder)
    requires IsNameType(st.adType) && decode(st.data).None?
    ensures Outcome([st] + tail, name, decode) == Outcome(tail, DecodeError, decode)
  {
    HasNameRecordCons(st, tail);
    FirstDecodedCons(st, tail, decode);
  }

  /** The walk from cursor `i` in terms of the structures that remain. */
  lemma {:induction false} WalkMatchesStructures(adv: seq<byte>, i: nat, name: string, decode: Decoder)
    requires name == "" || name == DecodeError
    ensures Walk(adv, i, name, decode) == Outcome(SplitFrom(adv, i), name, decode)
    decreases |adv| - i
  {
    if i + 1 < |adv| && adv[i] != 0 {
      var next := i + adv[i] as int + 1;
      var st := AdStructure(adv[i], adv[i + 1], PySlice(adv, i + 2, i + 1 + adv[i] as int));
      var tail := SplitFrom(adv, next);
      WalkStep(adv, i, name, decode);
      if !IsNameType(st.adType) {
        WalkMatchesStructures(adv, next, name, decode);
        OutcomeSkip(st, tail, name, decode);
      } else if decode(st.data).Some? {
        OutcomeHit(st, tail, name, decode);
      } else {
        WalkMatchesStructures(adv, next, DecodeError, decode);
        OutcomeMiss(st, tail, name, decode);
      }
    }
  }

  /** The cursor walk of the source agrees with the declarative specification. */
  lemma ParseAdvDataMatchesSpec(adv: seq<byte>, decode: Decoder)
    ensures ParseAdvData(adv, decode) == SpecName(Split(adv), decode)
  {
    WalkMatchesStructures(adv, 0, "", decode);
  }

  // ---------------------------------------------------------------------------
  // Consequences on whole payloads
  // ---------------------------------------------------------------------------

  /** A structure at the front that is not a Local Name does not change the result. */
  lemma NonNameStructureIgnored(st: AdStructure, rest: seq<byte>, decode: Decoder)
    requires WellFormed(st) && !IsNameType(st.adType)
    ensures ParseAdvData(Encode(st) + rest, decode) == ParseAdvData(rest, decode)
  {
    SplitEncodePrefix(st, rest);
    ParseAdvDataMatchesSpec(Encode(st) + rest, decode);
    ParseAdvDataMatchesSpec(rest, decode);
    HasNameRecordCons(st, Split(rest));
    FirstDecodedCons(st, Split(rest), decode);
  }

  /** Framing reads well-formed structures laid out in front of any payload back as themselves. */
  lemma {:induction false} SerializePrefixSplit(pre: seq<AdStructure>, rest: seq<byte>)
    requires forall k :: 0 <= k < |pre| ==> WellFormed(pre[k])
    ensures Split(Serialize(pre) + rest) == pre + Split(rest)
    decreases |pre|
  {
    if pre != [] {
      var tail := Serialize(pre[1..]) + rest;
      assert Serialize(pre) + rest == Encode(pre[0]) + tail;
      SplitEncodePrefix(pre[0], tail);
      SerializePrefixSplit(pre[1..], rest);
      assert [pre[0]] + (pre[1..] + Split(rest)) == pre + Split(rest);
    } else {
      assert Serialize(pre) + rest == rest;
    }
  }

  /** Removing a structure that is not a Local Name changes neither the first decoded name nor whether a name occurs. */
  lemma {:induction false} DropNonName(pre: seq<AdStructure>, st: AdStructure, tail: seq<AdStructure>, decode: Decoder)
    requires !IsNameType(st.adType)
    ensures FirstDecoded(pre + [st] + tail, decode) == FirstDecoded(pre + tail, decode)
    ensures HasNameRecord(pre + [st] + tail) <==> HasNameRecord(pre + tail)
    decreases |pre|
  {
    if pre == [] {
      assert pre + [st] + tail == [st] + tail;
      assert pre + tail == tail;
      FirstDecodedCons(st, tail, decode);
      HasNameRecordCons(st, tail);
    } else {
      var p := pre[0];
      var with := pre[1..] + [st] + tail;
      var without := pre[1..] + tail;
      assert pre + [st] + tail == [p] + with;
      assert pre + tail == [p] + without;
      DropNonName(pre[1..], st, tail, decode);
      FirstDecodedCons(p, with, decode);
      FirstDecodedCons(p, without, decode);
      HasNameRecordCons(p, with);
      HasNameRecordCons(p, without);
    }
  }

  /** Framing reads well-formed structures, then one more, in front of any payload back as themselves. */
  lemma SerializeThenEncodeSplit(pre: seq<AdStructure>, st: AdStructure, rest: seq<byte>)
    requires forall k :: 0 <= k < |pre| ==> WellFormed(pre[k])
    requires WellFormed(st)
    ensures Split(Serialize(pre) + (Encode(st) + rest)) == pre + ([st] + Split(rest))
  {
    SerializePrefixSplit(pre, Encode(st) + rest);
    SplitEncodePrefix(st, rest);
  }

  /** The declarative name ignores a structure that is not a Local Name, wherever it sits. */
  lemma SpecNameDropNonName(pre: seq<AdStructure>, st: AdStructure, tail: seq<AdStructure>, decode: Decoder)
    requires !IsNameType(st.adType)
    ensures SpecName(pre + ([st] + tail), decode) == SpecName(pre + tail, decode)
  {
    assert pre + ([st] + tail) == pre + [st] + tail;
    DropNonName(pre, st, tail, decode);
  }

  /** Two payloads whose structures yield the same name walk to the same result. */
  lemma SameNameSameResult(a: seq<byte>, b: seq<byte>, decode: Decoder)
    requires SpecName(Split(a), decode) == SpecName(Split(b), decode)
    ensures ParseAdvData(a, decode) == ParseAdvData(b, decode)
  {
    ParseAdvDataMatchesSpec(a, decode);
    ParseAdvDataMatchesSpec(b, decode);
  }

  /**
   * A structure that is not a Local Name never changes the result, wherever
   * it sits behind well-formed structures.
   */
  lemma NonNameStructureIgnoredAnywhere(pre: seq<AdStructure>, st: AdStructure, rest: seq<byte>, decode: Decoder)
    requires forall k :: 0 <= k < |pre| ==> WellFormed(pre[k])
    requires WellFormed(st) && !IsNameType(st.adType)
    ensures ParseAdvData(Serialize(pre) + (Encode(st) + rest), decode) == ParseAdvData(Serialize(pre) + rest, decode)
  {
    SerializeThenEncodeSplit(pre, st, rest);
    SerializePrefixSplit(pre, rest);
    SpecNameDropNonName(pre, st, Split(rest), decode);
    SameNameSameResult(Serialize(pre) + (Encode(st) + rest), Serialize(pre) + rest, decode);
  }

  /** A leading Local Name that decodes decides the result, whatever follows. */
  lemma FirstDecodedNameWins(st: AdStructure, rest: seq<byte>, decode: Decoder, s: string)
    requires WellFormed(st) && IsNameType(st.adType)
    requires decode(st.data) == Some(s)
    ensures ParseAdvData(Encode(st) + rest, decode) == if s != "" then s else Unknown
  {
    SplitEncodePrefix(st, rest);
    ParseAdvDataMatchesSpec(Encode(st) + rest, decode);
    FirstDecodedCons(st, Split(rest), decode);
  }

  /**
   * A leading Local Name that fails to decode does not end the walk: a later
   * name that decodes overrides it, and only when none does is the result
   * "Decode Error".
   */
  lemma DecodeFailureContinues(st: AdStructure, rest: seq<byte>, decode: Decoder)
    requires WellFormed(st) && IsNameType(st.adType)
    requires decode(st.data) == None
    ensures ParseAdvData(Encode(st) + rest, decode) ==
      if FirstDecoded(Split(rest), decode).None? then DecodeError else ParseAdvData(rest, decode)
  {
    SplitEncodePrefix(st, rest);
    ParseAdvDataMatchesSpec(Encode(st) + rest, decode);
    ParseAdvDataMatchesSpec(rest, decode);
    HasNameRecordCons(st, Split(rest));
    FirstDecodedCons(st, Split(rest), decode);
  }

  /**
   * A Local Name structure of length 1 carries no text: with a decoder that
   * maps no bytes to the empty string, the walk stops there with an empty
   * name, which reads as "Unknown".
   */
  lemma EmptyNameIsUnknown(adType: byte, rest: seq<byte>, decode: Decoder)
    requires decode([]) == Some("")
    requires IsNameType(adType)
    ensures ParseAdvData([1, adType] + rest, decode) == Unknown
  {
    var st := AdStructure(1, adType, []);
    assert [1, adType] + rest == Encode(st) + rest;
    FirstDecodedNameWins(st, rest, decode, "");
  }
}
