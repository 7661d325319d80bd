/**
 * What ReadAttachments makes of any records a query delivers (bucket.go):
 * which record decides about an attachment, and which one makes it fail.
 */
module AttachmentReads {
  import opened Text
  import opened Headers
  import opened Attachments

  // ---- the records that count ---------------------------------------------------------------------

  /** No record before this one is the last of the query. */
  ghost predicate Looked(rs: seq<Queried>, i: int) {
    0 <= i < |rs| && forall j :: 0 <= j < i ==> !rs[j].last
  }

  ghost predicate Names(q: Queried, k: string) {
    "key" in q.labels && q.labels["key"] == k
  }

  ghost predicate Removes(q: Queried) {
    "remove" in q.labels && SaysTrue(q.labels["remove"])
  }

  /** The body of an attachment that is not there, or is no JSON. */
  ghost predicate Breaks(q: Queried, decodes: bytes -> bool) {
    "key" in q.labels && !Removes(q) && (q.content.Err? || !decodes(q.content.value))
  }

  /** The failure that such a record leads to. */
  ghost predicate TellsBreak(r: Reading, q: Queried) {
    "key" in q.labels && r == Unreadable(if q.content.Err? then NotRead(q.content.error) else NotDecoded(q.labels["key"]))
  }

  ghost predicate Unbroken(rs: seq<Queried>, decodes: bytes -> bool) {
    forall i :: Looked(rs, i) ==> !Breaks(rs[i], decodes)
  }

  /** The record that decides about an attachment: the final one that names it. */
  ghost predicate Decides(rs: seq<Queried>, i: int, k: string) {
    Looked(rs, i) && Names(rs[i], k) && forall j :: i < j && Looked(rs, j) ==> !Names(rs[j], k)
  }

  // ---- one record ---------------------------------------------------------------------------------

  lemma StepIs(m: Payloads, q: Queried, decodes: bytes -> bool)
    ensures ReadStep(m, q, decodes).Unreadable? <==> Breaks(q, decodes)
    ensures Breaks(q, decodes) ==> TellsBreak(ReadStep(m, q, decodes), q)
    ensures !Breaks(q, decodes) && "key" in q.labels ==>
              ReadStep(m, q, decodes)
              == Attached(if Removes(q) then m - {q.labels["key"]} else m[q.labels["key"] := q.content.value])
    ensures "key" !in q.labels ==> ReadStep(m, q, decodes) == Attached(m)
  {
    if REMOVE in q.labels { TrueFolds(q.labels[REMOVE]); }
    hide EqualFold, SaysTrue;
  }

  lemma LookedRest(rs: seq<Queried>, i: int)
    requires rs != [] && !rs[0].last
    ensures i >= 1 ==> (Looked(rs, i) <==> Looked(rs[1..], i - 1))
  {
    if i >= 1 && Looked(rs[1..], i - 1) {
      forall j | 0 <= j < i ensures !rs[j].last {
        if j > 0 { assert rs[j] == rs[1..][j - 1]; }
      }
    }
  }

  lemma UnbrokenRest(rs: seq<Queried>, decodes: bytes -> bool)
    requires rs != [] && !rs[0].last && Unbroken(rs, decodes)
    ensures Unbroken(rs[1..], decodes)
  {
    hide Breaks;
    forall i | 0 <= i < |rs| - 1 && Looked(rs[1..], i) ensures !Breaks(rs[1..][i], decodes) {
      LookedRest(rs, i + 1);
      assert rs[1..][i] == rs[i + 1];
    }
  }

  lemma LookedIndex(rs: seq<Queried>, i: int)
    requires Looked(rs, i)
    ensures 0 <= i < |rs|
  {}

  // ---- failures -----------------------------------------------------------------------------------

  lemma {:induction false} BreakDecides(m: Payloads, rs: seq<Queried>, i: nat, decodes: bytes -> bool)
    requires Looked(rs, i) && Breaks(rs[i], decodes) && forall j :: 0 <= j < i ==> !Breaks(rs[j], decodes)
    ensures TellsBreak(ReadFrom(m, rs, decodes), rs[i])
    decreases |rs|
  {
    hide ReadStep, Breaks, Looked;
    LookedIndex(rs, i);
    StepIs(m, rs[0], decodes);
    if i == 0 {
      assert Breaks(rs[0], decodes);
    } else {
      FirstIsNotLast(rs, i);
      LookedRest(rs, i);
      assert forall j :: 0 <= j < i - 1 ==> rs[1..][j] == rs[j + 1];
      BreakDecides(ReadStep(m, rs[0], decodes).attachments, rs[1..], i - 1, decodes);
    }
  }

  lemma FirstIsNotLast(rs: seq<Queried>, i: nat)
    requires Looked(rs, i) && i > 0
    ensures !rs[0].last
  {}

  lemma {:induction false} UnbrokenReads(m: Payloads, rs: seq<Queried>, decodes: bytes -> bool)
    requires Unbroken(rs, decodes)
    ensures ReadFrom(m, rs, decodes).Attached?
    decreases |rs|
  {
    hide ReadStep, Breaks;
    if rs != [] {
      assert Looked(rs, 0);
      StepIs(m, rs[0], decodes);
      if !rs[0].last {
        UnbrokenRest(rs, decodes);
        UnbrokenReads(ReadStep(m, rs[0], decodes).attachments, rs[1..], decodes);
      }
    }
  }

  lemma {:induction false} FirstBreak(rs: seq<Queried>, i: nat, decodes: bytes -> bool) returns (k: nat)
    requires Looked(rs, i) && Breaks(rs[i], decodes)
    ensures Looked(rs, k) && Breaks(rs[k], decodes) && forall j :: 0 <= j < k ==> !Breaks(rs[j], decodes)
  {
    hide Breaks;
    if j :| 0 <= j < i && Breaks(rs[j], decodes) {
      k := FirstBreak(rs, j, decodes);
    } else {
      k := i;
    }
  }

  /**
   * ReadAttachments fails exactly if it comes to an attachment, not marked as
   * removed, whose body cannot be read or decoded, and then with the failure
   * of the first such record.
   */
  lemma {:induction false} ReadFailsIff(entry: string, rs: seq<Queried>, decodes: bytes -> bool)
    requires entry != ""
    ensures ReadResult(entry, Ok(rs), decodes).Unreadable? <==> exists i :: Looked(rs, i) && Breaks(rs[i], decodes)
    ensures forall i :: Looked(rs, i) && Breaks(rs[i], decodes) && (forall j :: 0 <= j < i ==> !Breaks(rs[j], decodes)) ==>
              TellsBreak(ReadResult(entry, Ok(rs), decodes), rs[i])
  {
    hide Breaks, ReadFrom;
    forall i | Looked(rs, i) && Breaks(rs[i], decodes) && (forall j :: 0 <= j < i ==> !Breaks(rs[j], decodes))
      ensures TellsBreak(ReadFrom(map[], rs, decodes), rs[i])
    {
      BreakDecides(map[], rs, i, decodes);
    }
    if i :| Looked(rs, i) && Breaks(rs[i], decodes) {
      var k := FirstBreak(rs, i, decodes);
      BreakDecides(map[], rs, k, decodes);
    } else {
      UnbrokenReads(map[], rs, decodes);
    }
  }

  // ---- what is read -------------------------------------------------------------------------------

  lemma {:induction false} NotNamed(m: Payloads, rs: seq<Queried>, k: string, decodes: bytes -> bool)
    requires Unbroken(rs, decodes) && forall i :: Looked(rs, i) ==> !Names(rs[i], k)
    ensures ReadFrom(m, rs, decodes).Attached?
    ensures var got := ReadFrom(m, rs, decodes).attachments;
            (k in got <==> k in m) && (k in m ==> got[k] == m[k])
    decreases |rs|
  {
    hide ReadStep, Breaks, Removes;
    if rs != [] {
      assert Looked(rs, 0);
      StepIs(m, rs[0], decodes);
      if !rs[0].last {
        UnbrokenRest(rs, decodes);
        RestNotNamed(rs, k);
        NotNamed(ReadStep(m, rs[0], decodes).attachments, rs[1..], k, decodes);
      }
    }
  }

  lemma RestNotNamed(rs: seq<Queried>, k: string)
    requires rs != [] && !rs[0].last && forall i :: 1 <= i && Looked(rs, i) ==> !Names(rs[i], k)
    ensures forall i :: Looked(rs[1..], i) ==> !Names(rs[1..][i], k)
  {
    hide Names;
    forall i | 0 <= i < |rs| - 1 && Looked(rs[1..], i) ensures !Names(rs[1..][i], k) {
      LookedRest(rs, i + 1);
      assert rs[1..][i] == rs[i + 1];
    }
  }

  lemma {:induction false} NamedDecides(m: Payloads, rs: seq<Queried>, i: nat, k: string, decodes: bytes -> bool)
    requires Unbroken(rs, decodes) && Decides(rs, i, k)
    ensures ReadFrom(m, rs, decodes).Attached? && (Removes(rs[i]) || rs[i].content.Ok?)
    ensures var got := ReadFrom(m, rs, decodes).attachments;
            if Removes(rs[i]) then k !in got else k in got && got[k] == rs[i].content.value
    decreases |rs|
  {
    hide ReadStep, Removes;
    assert Looked(rs, 0);
    StepIs(m, rs[0], decodes);
    if i == 0 {
      if !rs[0].last {
        UnbrokenRest(rs, decodes);
        RestNotNamed(rs, k);
        NotNamed(ReadStep(m, rs[0], decodes).attachments, rs[1..], k, decodes);
      }
    } else {
      UnbrokenRest(rs, decodes);
      RestDecides(rs, i, k);
      NamedDecides(ReadStep(m, rs[0], decodes).attachments, rs[1..], i - 1, k, decodes);
    }
  }

  lemma RestDecides(rs: seq<Queried>, i: nat, k: string)
    requires Decides(rs, i, k) && i > 0
    ensures !rs[0].last && Decides(rs[1..], i - 1, k)
  {
    hide Names;
    LookedRest(rs, i);
    forall j | i - 1 < j < |rs| - 1 && Looked(rs[1..], j) ensures !Names(rs[1..][j], k) {
      LookedRest(rs, j + 1);
      assert rs[1..][j] == rs[j + 1];
    }
  }

  lemma {:induction false} FinalNamed(rs: seq<Queried>, i: nat, k: string) returns (d: nat)
    requires Looked(rs, i) && Names(rs[i], k)
    ensures Decides(rs, d, k)
    decreases |rs| - i
  {
    hide Names;
    if j :| i < j && Looked(rs, j) && Names(rs[j], k) {
      d := FinalNamed(rs, j, k);
    } else {
      d := i;
    }
  }

  /**
   * Otherwise exactly those attachments are returned whose deciding record
   * does not remove them, each with the payload of that record.
   */
  lemma {:induction false} ReadIsDecided(entry: string, rs: seq<Queried>, k: string, decodes: bytes -> bool)
    requires entry != "" && Unbroken(rs, decodes)
    ensures ReadResult(entry, Ok(rs), decodes).Attached?
    ensures var got := ReadResult(entry, Ok(rs), decodes).attachments;
            && (k in got <==> exists i :: Decides(rs, i, k) && !Removes(rs[i]))
            && forall i :: Decides(rs, i, k) && !Removes(rs[i]) ==> rs[i].content.Ok? && got[k] == rs[i].content.value
  {
    hide Unbroken, Removes, Names, ReadFrom;
    if i :| Looked(rs, i) && Names(rs[i], k) {
      var d := FinalNamed(rs, i, k);
      NamedDecides(map[], rs, d, k, decodes);
      forall e | Decides(rs, e, k) ensures e == d {}
    } else {
      NotNamed(map[], rs, k, decodes);
    }
  }
}
