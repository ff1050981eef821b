/** `collect_medicines.fetch_from_api`: reading the fetch limit the user
    types, and merging the fetched records into the stored catalogue without
    adding a name that is already stored. The prompt loop, the backup, the
    network fetch and the file writes are not modelled; the typed text, the
    fetched records and the stored catalogue are parameters. */
module Collector {
  import opened Wrappers
  import opened Text
  import opened Seqs
  import opened JsonValues
  import opened Curator

  // ------------------------------------------------------------ the fetch limit

  predicate IsDigit(c: char) { '0' <= c <= '9' }

  function DigitValue(c: char): nat
    requires IsDigit(c)
  {
    c as int - '0' as int
  }

  /** `s` is a non-empty run of decimal digits. */
  predicate IsNumeral(s: string) {
    |s| > 0 && forall i | 0 <= i < |s| :: IsDigit(s[i])
  }

  /** The value of a non-empty run of decimal digits. */
  function Digits(s: string): nat
    requires forall i | 0 <= i < |s| :: IsDigit(s[i])
  {
    if |s| == 0 then 0 else Digits(s[..|s| - 1]) * 10 + DigitValue(s[|s| - 1])
  }

  /** `int(text)` for text that is already stripped: an optional sign and
      one or more decimal digits. `None` is the `ValueError` case. */
  function ParseInt(t: string): (r: Option<int>)
    ensures r.Some? <==> IsNumeral(t) || (|t| > 0 && (t[0] == '+' || t[0] == '-') && IsNumeral(t[1..]))
    ensures IsNumeral(t) ==> r == Some(Digits(t))
    ensures |t| > 0 && t[0] == '+' && IsNumeral(t[1..]) ==> r == Some(Digits(t[1..]))
    ensures |t| > 0 && t[0] == '-' && IsNumeral(t[1..]) ==> r == Some(-(Digits(t[1..]) as int))
  {
    if |t| > 0 && (t[0] == '-' || t[0] == '+') then
      var ds := t[1..];
      if |ds| > 0 && forall i | 0 <= i < |ds| :: IsDigit(ds[i]) then
        var v: int := Digits(ds);
        Some(if t[0] == '-' then -v else v)
      else None
    else if |t| > 0 && forall i | 0 <= i < |t| :: IsDigit(t[i]) then Some(Digits(t))
    else None
  }

  /** The decimal digits of `n`. */
  function ShowNat(n: nat): (s: string)
    ensures |s| > 0 && forall i | 0 <= i < |s| :: IsDigit(s[i])
  {
    if n < 10 then [('0' as int + n) as char]
    else ShowNat(n / 10) + [('0' as int + n % 10) as char]
  }

  /** `str(n)` */
  function ShowInt(n: int): string {
    if n < 0 then "-" + ShowNat(-n) else ShowNat(n)
  }

  /** Reading the digits of `n` gives `n` back. */
  lemma {:induction false} DigitsShowNat(n: nat)
    ensures Digits(ShowNat(n)) == n
  {
    var s := ShowNat(n);
    if n >= 10 {
      DigitsShowNat(n / 10);
      assert s[..|s| - 1] == ShowNat(n / 10);
    }
  }

  /** `int(str(n)) == n` */
  lemma ParseShowInt(n: int)
    ensures ParseInt(ShowInt(n)) == Some(n)
  {
    if n < 0 {
      DigitsShowNat(-n);
      ParseNegative(ShowNat(-n));
    } else {
      DigitsShowNat(n);
      ParseDigits(ShowNat(n));
    }
  }

  /** A minus sign before digits reads as their negated value. */
  lemma ParseNegative(ds: string)
    requires |ds| > 0 && forall i | 0 <= i < |ds| :: IsDigit(ds[i])
    ensures ParseInt("-" + ds) == Some(-(Digits(ds) as int))
  {
    assert ("-" + ds)[1..] == ds;
  }

  /** Unsigned digits read as their value. */
  lemma ParseDigits(ds: string)
    requires |ds| > 0 && forall i | 0 <= i < |ds| :: IsDigit(ds[i])
    ensures ParseInt(ds) == Some(Digits(ds))
  {
  }

  /** What one answer to the prompt leads to. */
  datatype LimitReply = Accept(limit: int) | OutOfRange | NotANumber

  /** One pass of the prompt loop: the answer is stripped; an empty answer
      means the default; a number is accepted when it lies in
      `[minLimit, maxLimit]`; otherwise the loop asks again. */
  function ReadLimit(input: string, minLimit: int, maxLimit: int, default: int): (r: LimitReply)
    ensures r.Accept? ==> minLimit <= r.limit <= maxLimit
    ensures Strip(input) == "" ==> r == if minLimit <= default <= maxLimit then Accept(default) else OutOfRange
    ensures r == NotANumber <==> Strip(input) != "" && ParseInt(Strip(input)).None?
    ensures Strip(input) != "" && ParseInt(Strip(input)).Some? ==>
              var n := ParseInt(Strip(input)).value;
              r == if minLimit <= n <= maxLimit then Accept(n) else OutOfRange
  {
    var t := Strip(input);
    var limit := if t == "" then Some(default) else ParseInt(t);
    match limit
    case None => NotANumber
    case Some(n) => if minLimit <= n <= maxLimit then Accept(n) else OutOfRange
  }

  /** Every limit in range is accepted when typed in decimal. */
  lemma TypedLimitAccepted(n: int, minLimit: int, maxLimit: int, default: int)
    ensures ReadLimit(ShowInt(n), minLimit, maxLimit, default)
         == if minLimit <= n <= maxLimit then Accept(n) else OutOfRange
  {
    var s := ShowInt(n);
    ParseShowInt(n);
    assert Strip(s) == s by {
      assert |s| > 0;
      assert !IsSpace(s[0]) && !IsSpace(s[|s| - 1]);
      StripUnpadded(s);
    }
  }

  /** A string that neither starts nor ends with whitespace is its own
      `strip()`. */
  lemma StripUnpadded(s: string)
    requires |s| > 0 && !IsSpace(s[0]) && !IsSpace(s[|s| - 1])
    ensures Strip(s) == s
  {
    assert TrimStart(s) == s;
  }

  // ------------------------------------------------------------ the merge

  /** The stored names, each as `m.get('name', '').lower()`. */
  predicate NamesReadable(meds: seq<Record>) {
    forall i | 0 <= i < |meds| :: StoredName(meds[i]).Some?
  }

  /** A fetched record whose lower-cased name no stored record has. */
  predicate NewTo(existing: seq<Record>, m: Record) {
    forall i | 0 <= i < |existing| :: StoredName(existing[i]) != StoredName(m)
  }

  function IsNewTo(existing: seq<Record>): Record -> bool {
    (m: Record) => NewTo(existing, m)
  }

  /** `existing_names = {m.get('name', '').lower() for m in existing}` */
  function NameSet(meds: seq<Record>): set<Option<string>> {
    set i | 0 <= i < |meds| :: StoredName(meds[i])
  }

  datatype FetchOutcome =
    | NothingFetched
    | NameError
    | Merged(medicines: seq<Record>, added: nat, skipped: nat)

  /** The merge in `fetch_from_api`: nothing is saved when nothing was
      fetched; a name that is not a string raises; otherwise the stored
      catalogue is kept as it is and the fetched records with new names are
      appended in fetched order. */
  function MergeFetched(existing: seq<Record>, fetched: seq<Record>): (r: FetchOutcome)
    ensures r == NothingFetched <==> |fetched| == 0
    ensures r == NameError <==> |fetched| > 0 && !(NamesReadable(existing) && NamesReadable(fetched))
    ensures r.Merged? ==>
              && |r.medicines| == |existing| + r.added
              && r.medicines[..|existing|] == existing
              && r.medicines[|existing|..] == Filter(fetched, IsNewTo(existing))
              && r.added + r.skipped == |fetched|
  {
    if |fetched| == 0 then NothingFetched
    else if !NamesReadable(existing) || !NamesReadable(fetched) then NameError
    else
      var names := NameSet(existing);
      var incoming := Filter(fetched, (m: Record) => StoredName(m) !in names);
      assert incoming == Filter(fetched, IsNewTo(existing)) by {
        forall k | 0 <= k < |fetched| ensures (StoredName(fetched[k]) !in names) == IsNewTo(existing)(fetched[k]) {
          if StoredName(fetched[k]) in names {
            var i :| 0 <= i < |existing| && StoredName(existing[i]) == StoredName(fetched[k]);
          }
        }
        SameFilter(fetched, (m: Record) => StoredName(m) !in names, IsNewTo(existing));
      }
      Merged(existing + incoming, |incoming|, |fetched| - |incoming|)
  }

  /** Two predicates that agree on every element filter alike. */
  lemma {:induction false} SameFilter<T>(xs: seq<T>, p: T -> bool, q: T -> bool)
    requires forall k | 0 <= k < |xs| :: p(xs[k]) == q(xs[k])
    ensures Filter(xs, p) == Filter(xs, q)
    decreases |xs|
  {
    if |xs| > 0 {
      SameFilter(xs[..|xs| - 1], p, q);
    }
  }

  /** No appended record shares a lower-cased name with a stored one, and
      every fetched record with a new name is appended. */
  lemma MergeAddsOnlyNew(existing: seq<Record>, fetched: seq<Record>)
    requires MergeFetched(existing, fetched).Merged?
    ensures var out := MergeFetched(existing, fetched).medicines;
            && (forall k, i | |existing| <= k < |out| && 0 <= i < |existing| :: StoredName(out[k]) != StoredName(existing[i]))
            && (forall j | 0 <= j < |fetched| && IsNewTo(existing)(fetched[j]) :: fetched[j] in out[|existing|..])
  {
    var out := MergeFetched(existing, fetched).medicines;
    var incoming := out[|existing|..];
    forall k, i | |existing| <= k < |out| && 0 <= i < |existing| ensures StoredName(out[k]) != StoredName(existing[i]) {
      assert out[k] == incoming[k - |existing|];
      assert IsNewTo(existing)(incoming[k - |existing|]);
    }
  }

  /** Records fetched twice in one batch are both appended: the merge only
      compares with the stored names, not within the batch. */
  lemma BatchDuplicatesKept(existing: seq<Record>, m: Record)
    requires NamesReadable(existing) && StoredName(m).Some? && IsNewTo(existing)(m)
    ensures MergeFetched(existing, [m, m]) == Merged(existing + [m, m], 2, 0)
  {
    var fetched := [m, m];
    assert NamesReadable(fetched);
    FilterAll(fetched, IsNewTo(existing));
    var r := MergeFetched(existing, fetched);
    assert r.Merged?;
    var e := |existing|;
    assert r.medicines[e..] == fetched;
    assert r.medicines == r.medicines[..e] + r.medicines[e..];
    assert r.added == 2;
  }

  /** After a merge, no fetched record is new to the merged catalogue. */
  lemma NothingNewAfterMerge(existing: seq<Record>, fetched: seq<Record>, out: seq<Record>)
    requires |existing| <= |out| && out[..|existing|] == existing
    requires out[|existing|..] == Filter(fetched, IsNewTo(existing))
    ensures forall j | 0 <= j < |fetched| :: !NewTo(out, fetched[j])
  {
    forall j | 0 <= j < |fetched| ensures !NewTo(out, fetched[j]) {
      if NewTo(existing, fetched[j]) {
        AddedNotNew(existing, fetched, out, fetched[j]);
      } else {
        KeptNotNew(existing, out, fetched[j]);
      }
    }
  }

  /** A record that was new is now in the catalogue, so no longer new. */
  lemma AddedNotNew(existing: seq<Record>, fetched: seq<Record>, out: seq<Record>, m: Record)
    requires |existing| <= |out|
    requires out[|existing|..] == Filter(fetched, IsNewTo(existing))
    requires m in fetched && NewTo(existing, m)
    ensures !NewTo(out, m)
  {
    var incoming := out[|existing|..];
    assert IsNewTo(existing)(m);
    assert m in incoming;
    var k :| 0 <= k < |incoming| && incoming[k] == m;
    assert out[|existing| + k] == m;
  }

  /** A record whose name the catalogue already held stays not new. */
  lemma KeptNotNew(existing: seq<Record>, out: seq<Record>, m: Record)
    requires |existing| <= |out| && out[..|existing|] == existing
    requires !NewTo(existing, m)
    ensures !NewTo(out, m)
  {
    var i :| 0 <= i < |existing| && StoredName(existing[i]) == StoredName(m);
    assert out[i] == existing[i];
  }

  /** Merging the same batch a second time adds nothing. */
  lemma MergeTwiceAddsNothing(existing: seq<Record>, fetched: seq<Record>)
    requires MergeFetched(existing, fetched).Merged?
    ensures var out := MergeFetched(existing, fetched).medicines;
            MergeFetched(out, fetched) == Merged(out, 0, |fetched|)
  {
    var out := MergeFetched(existing, fetched).medicines;
    MergedReadable(existing, fetched, out);
    NothingNewAfterMerge(existing, fetched, out);
    MergeNothingNew(out, fetched);
  }

  /** The merged catalogue's names are all readable. */
  lemma MergedReadable(existing: seq<Record>, fetched: seq<Record>, out: seq<Record>)
    requires NamesReadable(existing) && NamesReadable(fetched)
    requires |existing| <= |out| && out[..|existing|] == existing
    requires out[|existing|..] == Filter(fetched, IsNewTo(existing))
    ensures NamesReadable(out)
  {
    var incoming := out[|existing|..];
    forall k | 0 <= k < |out| ensures StoredName(out[k]).Some? {
      if k < |existing| {
        assert out[k] == existing[k];
      } else {
        assert out[k] == incoming[k - |existing|];
        assert incoming[k - |existing|] in fetched;
      }
    }
  }

  /** A batch with nothing new merges into the catalogue unchanged. */
  lemma MergeNothingNew(existing: seq<Record>, fetched: seq<Record>)
    requires |fetched| > 0 && NamesReadable(existing) && NamesReadable(fetched)
    requires forall j | 0 <= j < |fetched| :: !NewTo(existing, fetched[j])
    ensures MergeFetched(existing, fetched) == Merged(existing, 0, |fetched|)
  {
    assert forall j | 0 <= j < |fetched| :: !IsNewTo(existing)(fetched[j]);
    CountNone(fetched, IsNewTo(existing));
    var r := MergeFetched(existing, fetched);
    assert r.medicines == r.medicines[..|existing|] + r.medicines[|existing|..];
  }
}
