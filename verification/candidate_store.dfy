/**
 * The candidate store: the list kept under one local-storage key, the
 * `cand_NNNN` id generator, and the create and update operations on the list.
 * Storage is a value passed in and returned; nothing here performs I/O.
 */
module CandidateStore {
  import opened Wrappers
  import opened Text
  import opened JsValues
  import opened Doubles

  /** A stored candidate: a plain object whose properties are the form's field names. */
  type Candidate = Object

  /**
   * What the storage key holds: nothing, text that is not a JSON array
   * (unparsable or another JSON type), or a list of candidates.
   */
  datatype Storage = Absent | Corrupt | Stored(list: seq<Candidate>)

  /** `getCandidates`: the stored list; a missing or corrupt entry reads as the empty list. */
  function GetCandidates(st: Storage): (list: seq<Candidate>)
    ensures st.Stored? ==> list == st.list
    ensures !st.Stored? ==> list == []
  {
    if st.Stored? then st.list else []
  }

  /**
   * A missing or corrupt entry acts as an empty list: creating a record
   * replaces it with a list of that one record, numbered `cand_0001`.
   */
  lemma CreateOnEmptyStorage(st: Storage, payload: Object)
    requires !st.Stored?
    ensures CreateCandidate(st, payload) == Stored([NewCandidate(payload, "cand_0001")])
  {
    NextIdOfEmpty();
  }

  /** Nothing is found in a missing or corrupt entry: an update reports false and leaves the entry as it was. */
  lemma UpdateOnEmptyStorage(st: Storage, id: Value, payload: Object)
    requires !st.Stored?
    ensures UpdateCandidate(st, id, payload) == (st, false)
  {
  }

  /** `saveCandidates`: overwrite the entry with the list. */
  function SaveCandidates(list: seq<Candidate>): (st: Storage)
    ensures st.Stored?
    ensures GetCandidates(st) == list
  {
    Stored(list)
  }

  /** `String(item?.id ?? "")`: the id text the generator scans. */
  function IdOf(c: Candidate): string {
    TextOf(Get(c, "id"))
  }

  /** `String(x.id)`: the id text update compares; a missing id reads "undefined". */
  function IdText(c: Candidate): string {
    JsString(Get(c, "id"))
  }

  /**
   * Whether an id starts with `cand_` in any letter case: the `i` flag of
   * `/^cand_(\d+)$/i` lets each letter match either case, and `_` only itself.
   */
  predicate HasCandPrefix(id: string) {
    && |id| >= 5
    && LowerChar(id[0]) == 'c' && LowerChar(id[1]) == 'a' && LowerChar(id[2]) == 'n' && LowerChar(id[3]) == 'd'
    && id[4] == '_'
  }

  /**
   * The number an id contributes to the maximum: the digits after `cand_`
   * when the whole id is `cand_<digits>`, otherwise the id itself when it is
   * all digits; any other id contributes nothing.
   */
  function IdNumber(id: string): Option<nat> {
    if HasCandPrefix(id) && |id| > 5 && AllDigits(id[5..]) then Some(DigitsValue(id[5..]))
    else if id != [] && AllDigits(id) then Some(DigitsValue(id))
    else None
  }

  /** What one record adds to the running maximum, which starts at zero. */
  function Contribution(c: Candidate): nat {
    IdNumber(IdOf(c)).GetOr(0)
  }

  /** The maximum id number in the list, or zero: the value of `max` after the scan. */
  function MaxIdNumber(list: seq<Candidate>): (m: nat)
    ensures forall i :: 0 <= i < |list| ==> Contribution(list[i]) <= m
  {
    if list == [] then 0
    else
      assert forall i :: 1 <= i < |list| ==> list[i] == list[1..][i - 1];
      if Contribution(list[0]) > MaxIdNumber(list[1..]) then Contribution(list[0]) else MaxIdNumber(list[1..])
  }

  /** The maximum is no larger than it must be: it is 0 or some record's contribution. */
  lemma {:induction false} MaxIsAttained(list: seq<Candidate>)
    ensures MaxIdNumber(list) == 0 || exists i :: 0 <= i < |list| && Contribution(list[i]) == MaxIdNumber(list)
  {
    if list != [] && Contribution(list[0]) <= MaxIdNumber(list[1..]) {
      MaxIsAttained(list[1..]);
      if MaxIdNumber(list[1..]) != 0 {
        var i :| 0 <= i < |list[1..]| && Contribution(list[1..][i]) == MaxIdNumber(list[1..]);
        assert list[i + 1] == list[1..][i];
      }
    }
  }

  /** An id made only of digits counts with its own value. */
  lemma BareNumberReads(id: string)
    requires id != [] && AllDigits(id)
    ensures IdNumber(id) == Some(DigitsValue(id))
  {
    assert !HasCandPrefix(id) by {
      assert IsDigit(id[0]);
    }
  }

  /** Only the two id shapes contribute: `cand_<digits>` in any letter case, or bare digits. */
  lemma IdNumberShapes(id: string)
    requires IdNumber(id).Some?
    ensures (HasCandPrefix(id) && |id| > 5 && AllDigits(id[5..])) || (id != [] && AllDigits(id))
  {
  }

  /** `cand_` followed by a digit string: an id the generator reads as the digits' value. */
  lemma CandIdReads(digits: string)
    requires digits != [] && AllDigits(digits)
    ensures var id := "cand_" + digits;
      id[..5] == "cand_" && id[5..] == digits && IdNumber(id) == Some(DigitsValue(digits))
  {
    var id := "cand_" + digits;
    assert id[..5] == "cand_";
    assert id[5..] == digits;
    assert HasCandPrefix(id);
  }

  /** An id that starts with `cand_` and continues with digits reads as those digits' value. */
  lemma PrefixedIdReads(id: string)
    requires |id| > 5 && id[..5] == "cand_" && AllDigits(id[5..])
    ensures IdNumber(id) == Some(DigitsValue(id[5..]))
  {
    assert id[0] == id[..5][0] && id[1] == id[..5][1] && id[2] == id[..5][2];
    assert id[3] == id[..5][3] && id[4] == id[..5][4];
    assert HasCandPrefix(id);
  }

  /**
   * `cand_` followed by `n` padded with zeros to at least four digits: the
   * digits denote `n`, and the generator reads the id back as `n`.
   */
  function FormatId(n: nat): (id: string)
    ensures |id| == 5 + (if |NatToString(n)| < 4 then 4 else |NatToString(n)|)
    ensures id[..5] == "cand_" && AllDigits(id[5..]) && DigitsValue(id[5..]) == n
  {
    var padded := PadStart(NatToString(n), 4, '0');
    NatToStringRoundTrip(n);
    PadZerosValue(NatToString(n), 4);
    var id := "cand_" + padded;
    assert id[..5] == "cand_" && id[5..] == padded;
    id
  }

  /** The generator's own scan reads a formatted id back as its number. */
  lemma FormatIdRoundTrip(n: nat)
    ensures IdNumber(FormatId(n)) == Some(n)
  {
    var padded := PadStart(NatToString(n), 4, '0');
    NatToStringRoundTrip(n);
    PadZerosValue(NatToString(n), 4);
    CandIdReads(padded);
  }

  /**
   * `generateNextCandidateId`: one more than the largest number in the list,
   * formatted, so it reads back above every record's number.
   */
  function NextCandidateId(list: seq<Candidate>): (id: string)
    ensures |id| >= 9 && id[..5] == "cand_"
    ensures AllDigits(id[5..]) && DigitsValue(id[5..]) == MaxIdNumber(list) + 1
  {
    FormatId(MaxIdNumber(list) + 1)
  }

  /** The generator's own scan reads the new id back as one more than the list's maximum. */
  lemma NextIdReadsBack(list: seq<Candidate>)
    ensures IdNumber(NextCandidateId(list)) == Some(MaxIdNumber(list) + 1)
  {
    PrefixedIdReads(NextCandidateId(list));
  }

  /** The generated id differs from every id in the list, however the id is read. */
  lemma NextIdIsFresh(list: seq<Candidate>)
    ensures forall i :: 0 <= i < |list| ==> IdOf(list[i]) != NextCandidateId(list) && IdText(list[i]) != NextCandidateId(list)
  {
    var id := NextCandidateId(list);
    assert id[0] == id[..5][0];
    NextIdReadsBack(list);
    FreshId(list, id);
  }

  /**
   * `Number(digits)` as the generator computes it: the nearest double, or
   * nothing when the digits are too many to be finite (`Number.isFinite`
   * skips them).
   */
  function IdNumberAsWritten(id: string): Option<nat> {
    match IdNumber(id)
    case Some(n) => if n < NumberOverflow then Some(RoundToDouble(n)) else None
    case None => None
  }

  /** What one record adds to the running maximum when the scan works in doubles. */
  function ContributionAsWritten(c: Candidate): nat {
    IdNumberAsWritten(IdOf(c)).GetOr(0)
  }

  /** The scan's `max` in doubles: the largest rounded contribution, or zero. */
  function MaxIdNumberAsWritten(list: seq<Candidate>): (m: nat)
    ensures forall i :: 0 <= i < |list| ==> ContributionAsWritten(list[i]) <= m
  {
    if list == [] then 0
    else
      assert forall i :: 1 <= i < |list| ==> list[i] == list[1..][i - 1];
      if ContributionAsWritten(list[0]) > MaxIdNumberAsWritten(list[1..]) then ContributionAsWritten(list[0])
      else MaxIdNumberAsWritten(list[1..])
  }

  /**
   * `generateNextCandidateId` as written: `max + 1` is a double sum, rounded
   * to the nearest double, and the id carries every digit of that double.
   * `String()` prints the same digits while the sum is at most 2^54
   * (Doubles.NoShorterDecimal); beyond that it prints fewer significant
   * digits padded with zeros, which this function does not follow.
   */
  function NextCandidateIdAsWritten(list: seq<Candidate>): (id: string)
    ensures |id| >= 9 && id[..5] == "cand_"
    ensures AllDigits(id[5..]) && DigitsValue(id[5..]) == RoundToDouble(MaxIdNumberAsWritten(list) + 1)
  {
    FormatId(RoundToDouble(MaxIdNumberAsWritten(list) + 1))
  }

  /** While the maximum stays below 2^53 - 1, the generator as written agrees with the exact one. */
  lemma NextIdAsWrittenAgrees(list: seq<Candidate>)
    requires MaxIdNumber(list) + 1 < SafeLimit
    ensures NextCandidateIdAsWritten(list) == NextCandidateId(list)
  {
    AsWrittenSumIsExact(list);
    NextFromSum(list, MaxIdNumber(list) + 1);
  }

  /** The generator as written formats whatever its double sum `max + 1` comes to. */
  lemma NextFromSum(list: seq<Candidate>, n: nat)
    requires RoundToDouble(MaxIdNumberAsWritten(list) + 1) == n
    ensures NextCandidateIdAsWritten(list) == FormatId(n)
  {
  }

  /** Below 2^53 - 1 the double sum `max + 1` is the exact successor of the exact maximum. */
  lemma AsWrittenSumIsExact(list: seq<Candidate>)
    requires MaxIdNumber(list) + 1 < SafeLimit
    ensures RoundToDouble(MaxIdNumberAsWritten(list) + 1) == MaxIdNumber(list) + 1
  {
    MaxAsWrittenIsExact(list);
    ExactBelowPrecision(MaxIdNumber(list) + 1);
  }

  /** Below 2^53 every contribution is a double, so the scan in doubles finds the exact maximum. */
  lemma {:induction false} MaxAsWrittenIsExact(list: seq<Candidate>)
    requires MaxIdNumber(list) < SafeLimit
    ensures MaxIdNumberAsWritten(list) == MaxIdNumber(list)
  {
    if list != [] {
      MaxAsWrittenIsExact(list[1..]);
      ContributionIsExact(list[0]);
    }
  }

  /** A record contributing less than 2^53 contributes the same amount in doubles. */
  lemma ContributionIsExact(c: Candidate)
    requires Contribution(c) < SafeLimit
    ensures ContributionAsWritten(c) == Contribution(c)
  {
    if IdNumber(IdOf(c)).Some? {
      PrecisionBelowOverflow();
      ExactBelowPrecision(Contribution(c));
    }
  }

  /**
   * As written, the generator can hand out an id that is already taken: for
   * the one-record list holding `cand_9007199254740992` (2^53), `max + 1` is
   * 2^53 + 1, which is not a double and rounds back to 2^53.
   */
  lemma NextIdAsWrittenRepeats()
    ensures var list := [map["id" := Str(FormatId(SafeLimit))]];
      NextCandidateIdAsWritten(list) == IdText(list[0]) == IdOf(list[0])
  {
    FirstGap();
    RepeatsAt(SafeLimit);
  }

  /**
   * The same for any p up to 2^54 that is a double while p + 1 rounds back to
   * it; up to 2^54 `String(p)` prints every digit, as FormatId does.
   */
  lemma RepeatsAt(p: nat)
    requires p <= 2 * SafeLimit && RoundToDouble(p) == p && RoundToDouble(p + 1) == p
    ensures var list := [map["id" := Str(FormatId(p))]];
      NextCandidateIdAsWritten(list) == IdText(list[0]) == IdOf(list[0])
  {
    var c := map["id" := Str(FormatId(p))];
    TwiceLimitBelowOverflow();
    FormattedContributesAsWritten(p);
    SingleMaxAsWritten(c);
    NextFromMax([c], p);
    TextOfFormatted(p);
  }

  /** When the scan in doubles finds p and p + 1 rounds back to p, the generator as written formats p. */
  lemma NextFromMax(list: seq<Candidate>, p: nat)
    requires MaxIdNumberAsWritten(list) == p && RoundToDouble(p + 1) == p
    ensures NextCandidateIdAsWritten(list) == FormatId(p)
  {
    NextFromSum(list, p);
  }

  /** A record whose id is a formatted id reads back that id, with `?? ""` or with `String()`. */
  lemma TextOfFormatted(p: nat)
    ensures var c := map["id" := Str(FormatId(p))];
      IdText(c) == FormatId(p) && IdOf(c) == FormatId(p)
  {
  }

  /** A record whose id is the formatted double p contributes p to the scan in doubles. */
  lemma FormattedContributesAsWritten(p: nat)
    requires p < NumberOverflow && RoundToDouble(p) == p
    ensures ContributionAsWritten(map["id" := Str(FormatId(p))]) == p
  {
    FormatIdRoundTrip(p);
  }

  /** The scan in doubles over one record finds that record's contribution. */
  lemma SingleMaxAsWritten(c: Candidate)
    ensures MaxIdNumberAsWritten([c]) == ContributionAsWritten(c)
  {
    assert [c][1..] == [];
  }

  /** An id whose number exceeds the list's maximum, and that starts with a letter, is not in the list. */
  lemma FreshId(list: seq<Candidate>, id: string)
    requires |id| > 0 && id[0] == 'c'
    requires IdNumber(id) == Some(MaxIdNumber(list) + 1)
    ensures forall i :: 0 <= i < |list| ==> IdOf(list[i]) != id && IdText(list[i]) != id
  {
    forall i | 0 <= i < |list| ensures IdOf(list[i]) != id && IdText(list[i]) != id {
      assert Contribution(list[i]) <= MaxIdNumber(list);
    }
  }

  /** The empty list starts the sequence at `cand_0001`. */
  lemma NextIdOfEmpty()
    ensures NextCandidateId([]) == "cand_0001"
  {
    assert MaxIdNumber([]) == 0;
    assert FormatId(1) == "cand_0001" by {
      assert NatToString(1) == "1";
      assert Repeat('0', 3) == "000";
      assert PadStart("1", 4, '0') == "0001";
    }
  }

  /**
   * Bare numeric ids count in the same maximum as `cand_` ids: a list holding
   * `cand_` for `a` and the bare number `b` continues from the larger of the two
   * (so `cand_0007` and `99` give `cand_0100`).
   */
  lemma NextIdCountsBareNumbers(a: nat, b: nat)
    ensures NextCandidateId([map["id" := Str(FormatId(a))], map["id" := Str(NatToString(b))]])
      == FormatId(if a < b then b + 1 else a + 1)
  {
    FormattedContributes(a);
    BareContributes(b);
    MaxOfTwo(map["id" := Str(FormatId(a))], map["id" := Str(NatToString(b))]);
  }

  /** A record whose id is a formatted id contributes that id's number. */
  lemma FormattedContributes(a: nat)
    ensures Contribution(map["id" := Str(FormatId(a))]) == a
  {
    FormatIdRoundTrip(a);
  }

  /** A record whose id is a printed number contributes that number. */
  lemma BareContributes(b: nat)
    ensures Contribution(map["id" := Str(NatToString(b))]) == b
  {
    BareNumberReads(NatToString(b));
    NatToStringRoundTrip(b);
  }

  /** The maximum over two records is the larger of their contributions. */
  lemma MaxOfTwo(x: Candidate, y: Candidate)
    ensures MaxIdNumber([x, y]) == if Contribution(x) < Contribution(y) then Contribution(y) else Contribution(x)
  {
    assert [y][1..] == [];
    assert MaxIdNumber([y]) == Contribution(y);
    assert [x, y][1..] == [y];
  }

  /** The fields `createCandidate` fills when the payload leaves them null or undefined, with their fallbacks. */
  const Defaults: map<string, string> := map[
    "campaign" := "", "position" := "Nhân viên", "jobPost" := "", "recruitStage" := "Mới",
    "rate" := "", "unit" := "", "personaFit" := "", "receptionInfo" := "", "talentPool" := ""
  ]

  /** `payload[k] ?? fallback`. */
  function OrDefault(payload: Object, k: string, fallback: string): Value {
    if IsNullish(Get(payload, k)) then Str(fallback) else payload[k]
  }

  /**
   * The record `createCandidate` builds: the payload, then a fresh `id`,
   * the defaulted fields, and `isNew: true`.
   */
  function NewCandidate(payload: Object, id: string): (c: Candidate)
    ensures c.Keys == payload.Keys + Defaults.Keys + {"id", "isNew"}
    ensures c["id"] == Str(id) && c["isNew"] == Bool(true)
    ensures forall k :: k in Defaults ==> c[k] == OrDefault(payload, k, Defaults[k])
    ensures forall k :: k in payload && k !in Defaults && k != "id" && k != "isNew" ==> c[k] == payload[k]
  {
    payload + Defaulted(payload) + map["id" := Str(id), "isNew" := Bool(true)]
  }

  /** The defaulted fields alone: each one's payload value, or its fallback when that is null or undefined. */
  function Defaulted(payload: Object): (d: Object)
    ensures d.Keys == Defaults.Keys
    ensures forall k :: k in Defaults ==> d[k] == OrDefault(payload, k, Defaults[k])
  {
    map k | k in Defaults :: OrDefault(payload, k, Defaults[k])
  }

  /** `createCandidate`: prepend the new record and save; the earlier records follow unchanged and in order. */
  function CreateCandidate(st: Storage, payload: Object): (st': Storage)
    ensures st'.Stored? && |st'.list| == |GetCandidates(st)| + 1
    ensures st'.list[1..] == GetCandidates(st)
    ensures st'.list[0] == NewCandidate(payload, NextCandidateId(GetCandidates(st)))
    ensures IdText(st'.list[0]) == NextCandidateId(GetCandidates(st))
  {
    Stored([NewCandidate(payload, NextCandidateId(GetCandidates(st)))] + GetCandidates(st))
  }

  /**
   * A defaulted field (such as `position`, "Nhân viên", or `recruitStage`,
   * "Mới") falls back only when the payload leaves it null or undefined: an
   * explicit value, the empty string included, is kept.
   */
  lemma CreateDefaultsOnlyMissingFields(st: Storage, payload: Object, k: string)
    requires k in Defaults
    ensures var c := CreateCandidate(st, payload).list[0];
      k in c && c[k] == (if IsNullish(Get(payload, k)) then Str(Defaults[k]) else payload[k])
  {
    var c := NewCandidate(payload, NextCandidateId(GetCandidates(st)));
    assert c[k] == OrDefault(payload, k, Defaults[k]);
  }

  /** Ids are pairwise distinct as update compares them. */
  predicate UniqueIds(list: seq<Candidate>) {
    forall i, j :: 0 <= i < j < |list| ==> IdText(list[i]) != IdText(list[j])
  }

  /** Creating a record keeps the ids unique. */
  lemma CreatePreservesUniqueIds(st: Storage, payload: Object)
    requires UniqueIds(GetCandidates(st))
    ensures UniqueIds(GetCandidates(CreateCandidate(st, payload)))
  {
    var existing := GetCandidates(st);
    var list := GetCandidates(CreateCandidate(st, payload));
    NextIdIsFresh(existing);
    assert list == [list[0]] + existing;
    PrependFreshKeepsUnique(list[0], existing);
  }

  /** Putting a record whose id no other record has in front of a list with unique ids keeps them unique. */
  lemma PrependFreshKeepsUnique(c: Candidate, existing: seq<Candidate>)
    requires UniqueIds(existing)
    requires forall i :: 0 <= i < |existing| ==> IdText(existing[i]) != IdText(c)
    ensures UniqueIds([c] + existing)
  {
    var list := [c] + existing;
    forall i, j | 0 <= i < j < |list| ensures IdText(list[i]) != IdText(list[j]) {
      assert list[j] == existing[j - 1];
      if i > 0 {
        assert list[i] == existing[i - 1];
      }
    }
  }

  /** Each create raises the maximum id number by exactly one, so successive creates number consecutively. */
  lemma CreateAdvancesCounter(st: Storage, payload: Object)
    ensures MaxIdNumber(GetCandidates(CreateCandidate(st, payload))) == MaxIdNumber(GetCandidates(st)) + 1
  {
    var existing := GetCandidates(st);
    var list := GetCandidates(CreateCandidate(st, payload));
    var id := NextCandidateId(existing);
    NextIdReadsBack(existing);
    assert IdOf(list[0]) == id;
    assert Contribution(list[0]) == MaxIdNumber(existing) + 1;
    assert list[1..] == existing;
  }

  /** `{...existing, ...payload, id: existing.id}`: payload values win, except that the existing `id` (or its absence) stays. */
  function Merge(existing: Candidate, payload: Object): (r: Candidate)
    ensures Get(r, "id") == Get(existing, "id")
    ensures forall k :: k != "id" ==> (k in r <==> k in existing || k in payload)
    ensures forall k :: k != "id" && k in payload ==> r[k] == payload[k]
    ensures forall k :: k != "id" && k in existing && k !in payload ==> r[k] == existing[k]
  {
    var merged := existing + payload;
    if "id" in existing then merged["id" := existing["id"]] else merged - {"id"}
  }

  /** `findIndex(x => String(x.id) === key)`: the first record whose id text is `key`. */
  function FindIndex(list: seq<Candidate>, key: string): (r: Option<nat>)
    ensures r.Some? ==> r.value < |list| && IdText(list[r.value]) == key
    ensures r.Some? ==> forall j :: 0 <= j < r.value ==> IdText(list[j]) != key
    ensures r.None? <==> forall j :: 0 <= j < |list| ==> IdText(list[j]) != key
  {
    if list == [] then None
    else if IdText(list[0]) == key then Some(0)
    else
      assert forall j :: 1 <= j < |list| ==> list[j] == list[1..][j - 1];
      match FindIndex(list[1..], key)
      case None => None
      case Some(i) => Some(i + 1)
  }

  /**
   * `updateCandidate(id, payload)`: merge the payload into the first record
   * whose id text is `String(id)` and save; when none matches, report false
   * and write nothing.
   */
  function UpdateCandidate(st: Storage, id: Value, payload: Object): (r: (Storage, bool))
    ensures var list := GetCandidates(st);
      r.1 <==> exists i :: 0 <= i < |list| && IdText(list[i]) == ToJsString(id)
    ensures !r.1 ==> r.0 == st
    ensures r.1 ==> r.0.Stored? && |r.0.list| == |GetCandidates(st)|
    ensures r.1 ==> var list := GetCandidates(st);
      exists i :: 0 <= i < |list| && IdText(list[i]) == ToJsString(id)
        && (forall j :: 0 <= j < i ==> IdText(list[j]) != ToJsString(id))
        && r.0.list == list[i := Merge(list[i], payload)]
  {
    var list := GetCandidates(st);
    match FindIndex(list, ToJsString(id))
    case None => (st, false)
    case Some(i) => (SaveCandidates(list[i := Merge(list[i], payload)]), true)
  }

  /**
   * As written, a record without an `id` reads as "undefined" to the lookup:
   * the key "undefined" finds it, and the merged record still has no `id`.
   */
  lemma UpdateFindsMissingIdAsUndefined(list: seq<Candidate>, payload: Object)
    requires list != [] && "id" !in list[0]
    ensures var r := UpdateCandidate(Stored(list), Str("undefined"), payload);
      r.1 && r.0.list[0] == Merge(list[0], payload) && "id" !in r.0.list[0]
  {
    assert IdText(list[0]) == "undefined";
  }

  /** An update changes no record's id, so it keeps ids unique and does not move the id counter. */
  lemma UpdateKeepsIds(st: Storage, id: Value, payload: Object)
    ensures var after := GetCandidates(UpdateCandidate(st, id, payload).0);
      && |after| == |GetCandidates(st)|
      && (forall j :: 0 <= j < |after| ==> Get(after[j], "id") == Get(GetCandidates(st)[j], "id"))
      && (UniqueIds(GetCandidates(st)) ==> UniqueIds(after))
      && NextCandidateId(after) == NextCandidateId(GetCandidates(st))
  {
    var before := GetCandidates(st);
    match FindIndex(before, ToJsString(id))
    case None =>
    case Some(i) =>
      var after := before[i := Merge(before[i], payload)];
      UpdateSavesMerge(st, id, payload, i);
      MergeKeepsIds(before, i, payload);
      SameIdsSameMax(after, before);
      SameIdsSameUniqueness(after, before);
      SameMaxSameNextId(after, before);
  }

  /** When the lookup finds index `i`, the update saves the list with that record merged. */
  lemma UpdateSavesMerge(st: Storage, id: Value, payload: Object, i: nat)
    requires FindIndex(GetCandidates(st), ToJsString(id)) == Some(i)
    ensures i < |GetCandidates(st)|
    ensures UpdateCandidate(st, id, payload) == (Stored(GetCandidates(st)[i := Merge(GetCandidates(st)[i], payload)]), true)
  {
  }

  /** The next id depends only on the maximum id number. */
  lemma SameMaxSameNextId(a: seq<Candidate>, b: seq<Candidate>)
    requires MaxIdNumber(a) == MaxIdNumber(b)
    ensures NextCandidateId(a) == NextCandidateId(b)
  {
    NextIdIsFormatted(a);
    NextIdIsFormatted(b);
  }

  /** The next id is the formatted successor of the maximum. */
  lemma NextIdIsFormatted(list: seq<Candidate>)
    ensures NextCandidateId(list) == FormatId(MaxIdNumber(list) + 1)
  {
  }

  /** Replacing one record by its merge leaves every record's id as it was. */
  lemma MergeKeepsIds(list: seq<Candidate>, i: nat, payload: Object)
    requires i < |list|
    ensures forall j :: 0 <= j < |list| ==> Get(list[i := Merge(list[i], payload)][j], "id") == Get(list[j], "id")
  {
    var m := Merge(list[i], payload);
    assert Get(m, "id") == Get(list[i], "id");
  }

  /** Two lists whose records carry the same ids are both unique or both not. */
  lemma SameIdsSameUniqueness(a: seq<Candidate>, b: seq<Candidate>)
    requires |a| == |b|
    requires forall j :: 0 <= j < |a| ==> Get(a[j], "id") == Get(b[j], "id")
    ensures UniqueIds(a) <==> UniqueIds(b)
  {
    assert forall j :: 0 <= j < |a| ==> IdText(a[j]) == IdText(b[j]);
  }

  /** Two lists whose records carry the same ids have the same maximum id number. */
  lemma {:induction false} SameIdsSameMax(a: seq<Candidate>, b: seq<Candidate>)
    requires |a| == |b|
    requires forall j :: 0 <= j < |a| ==> Get(a[j], "id") == Get(b[j], "id")
    ensures MaxIdNumber(a) == MaxIdNumber(b)
  {
    if a != [] {
      assert Contribution(a[0]) == Contribution(b[0]) by {
        assert IdOf(a[0]) == IdOf(b[0]);
      }
      SameIdsSameMax(a[1..], b[1..]);
    }
  }
}
