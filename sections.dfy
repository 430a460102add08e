/**
 * Grouping of a routine's results into display sections: each result goes
 * to the first section whose name its caption starts with, compared in lower
 * case; a result no section claims goes to a fallback section, which is
 * added to the display order once.
 */
module Sections {
  import opened Wrappers
  import opened Text
  import opened Lookup

  /** The sections a routine's output type is displayed in, before any fallback. */
  function InitialOrder(outputType: string): (order: seq<string>)
    ensures |order| > 0
    ensures "Results" in order <==> outputType != "dual_branch" && outputType != "branch_main"
  {
    if outputType == "dual_branch" then ["Branch 1", "Branch 2", "Main"]
    else if outputType == "branch_main" then ["Branch", "Main"]
    else ["Results"]
  }

  /** A non-empty caption starting with the section name, ignoring case. */
  predicate Prefixed(caption: string, section: string) {
    caption != "" && StartsWith(Lower(caption), Lower(section))
  }

  /** The section for results no section name claims. */
  function Fallback(order: seq<string>): string {
    if "Results" in order then "Results" else "Other Results"
  }

  /**
   * The section a caption lands in: the first section of `order` whose name
   * it starts with, else the fallback.
   */
  function SectionOf(order: seq<string>, caption: string): (s: string)
    ensures forall i :: (0 <= i < |order| && Prefixed(caption, order[i]) &&
                         forall j :: 0 <= j < i ==> !Prefixed(caption, order[j])) ==> s == order[i]
    ensures (forall i :: 0 <= i < |order| ==> !Prefixed(caption, order[i])) ==> s == Fallback(order)
  {
    match First(order, (p: string) => Prefixed(caption, p))
    case Some(i) => order[i]
    case None => Fallback(order)
  }

  /** The results of section `s`, as a filter on entries. */
  function InSection<V>(order: seq<string>, s: string): ((string, V)) -> bool {
    (e: (string, V)) => SectionOf(order, e.0) == s
  }

  /** Some entry falls back to a section the initial order lacks. */
  predicate NeedsFallback<V>(order: seq<string>, results: seq<(string, V)>) {
    Fallback(order) !in order && exists i :: 0 <= i < |results| && SectionOf(order, results[i].0) == Fallback(order)
  }

  /**
   * Scanning the order with the fallback appended finds the same section as
   * scanning the initial order: a caption claimed by no initial section
   * lands in the fallback either way.
   */
  lemma ExtendedSection(order: seq<string>, caption: string)
    requires Fallback(order) !in order
    ensures SectionOf(order + [Fallback(order)], caption) == SectionOf(order, caption)
  {
    var fb := Fallback(order);
    var extended := order + [fb];
    assert "Results" !in extended;
    match First(order, (p: string) => Prefixed(caption, p))
    case Some(i) =>
      assert extended[i] == order[i];
    case None =>
      if Prefixed(caption, fb) {
        assert extended[|order|] == fb;
      }
  }

  /** The section found by scanning the current order is the one the initial order assigns. */
  lemma CurrentSection(order0: seq<string>, order: seq<string>, caption: string)
    requires order == order0 || (Fallback(order0) !in order0 && order == order0 + [Fallback(order0)])
    ensures SectionOf(order, caption) == SectionOf(order0, caption)
  {
    if order != order0 {
      ExtendedSection(order0, caption);
    }
  }

  /** The sections grouping the entries `rs` creates: one per section some entry lands in. */
  ghost predicate DomainOf<V>(order0: seq<string>, rs: seq<(string, V)>, sections: map<string, seq<(string, V)>>) {
    forall s :: s in sections <==> exists i :: 0 <= i < |rs| && SectionOf(order0, rs[i].0) == s
  }

  /** Each section lists the entries landing in it, in their order. */
  ghost predicate ContentsOf<V>(order0: seq<string>, rs: seq<(string, V)>, sections: map<string, seq<(string, V)>>) {
    forall s :: s in sections ==> sections[s] == Where(rs, InSection(order0, s))
  }

  /** The display order: the initial one, then the fallback when some entry needed it. */
  ghost predicate OrderOf<V>(order0: seq<string>, rs: seq<(string, V)>, order: seq<string>) {
    order == order0 + (if NeedsFallback(order0, rs) then [Fallback(order0)] else [])
  }

  /** Every caption of `rs`, once. */
  ghost predicate ProcessedOf<V>(rs: seq<(string, V)>, processed: set<string>) {
    processed == set i | 0 <= i < |rs| :: rs[i].0
  }

  /** The grouping of the entries `rs`: sections, their contents, display order and processed captions. */
  ghost predicate Grouped<V>(order0: seq<string>, rs: seq<(string, V)>, sections: map<string, seq<(string, V)>>,
                             order: seq<string>, processed: set<string>)
  {
    DomainOf(order0, rs, sections) && ContentsOf(order0, rs, sections) &&
    OrderOf(order0, rs, order) && ProcessedOf(rs, processed)
  }

  /**
   * The grouping loop. Every entry is placed, in order, in the section its
   * caption selects; a section exists exactly when some entry lands in it;
   * the fallback is appended to the order once, only when used and absent;
   * every caption is recorded as processed.
   */
  method GroupSections<V>(results: seq<(string, V)>, outputType: string)
    returns (sections: map<string, seq<(string, V)>>, order: seq<string>, processed: set<string>)
    ensures Grouped(InitialOrder(outputType), results, sections, order, processed)
  {
    var order0 := InitialOrder(outputType);
    sections, order, processed := map[], order0, {};
    Start(order0, results);
    for k := 0 to |results|
      invariant Grouped(order0, results[..k], sections, order, processed)
    {
      sections, order, processed := Place(order0, results, k, sections, order, processed);
    }
    Finish(order0, results, sections, order, processed);
  }

  /**
   * The inner scan: the first section of `order` whose name the caption
   * starts with, else the fallback for `order`.
   */
  method Scan(order: seq<string>, caption: string) returns (section: string, found: bool)
    ensures section == SectionOf(order, caption)
    ensures found <==> exists i :: 0 <= i < |order| && Prefixed(caption, order[i])
    ensures found ==> section in order
  {
    var j := 0;
    section, found := "", false;
    while j < |order| && !found
      invariant 0 <= j <= |order|
      invariant !found ==> forall i :: 0 <= i < j ==> !Prefixed(caption, order[i])
      invariant found ==> 0 < j && section == order[j - 1] && Prefixed(caption, section) &&
                          forall i :: 0 <= i < j - 1 ==> !Prefixed(caption, order[i])
    {
      if Prefixed(caption, order[j]) {
        section, found := order[j], true;
      }
      j := j + 1;
    }
    if !found {
      section := if "Results" in order then "Results" else "Other Results";
    }
  }

  /** The scan of the current order finds the section the initial order assigns. */
  lemma Scanned<V>(order0: seq<string>, rs: seq<(string, V)>, sections: map<string, seq<(string, V)>>,
                   order: seq<string>, processed: set<string>, caption: string, section: string)
    requires Grouped(order0, rs, sections, order, processed)
    requires section == SectionOf(order, caption)
    ensures section == SectionOf(order0, caption)
  {
    if !NeedsFallback(order0, rs) {
      assert order == order0;
    }
    CurrentSection(order0, order, caption);
  }

  /** Before the loop: no sections, the initial order, nothing processed. */
  lemma Start<V>(order0: seq<string>, results: seq<(string, V)>)
    ensures Grouped(order0, results[..0], map[], order0, {})
  {
    assert order0 + [] == order0;
  }

  /**
   * One pass of the loop: the entry at `k` joins the first section its
   * caption starts with, or the fallback, which joins the order if absent.
   */
  method Place<V>(order0: seq<string>, results: seq<(string, V)>, k: nat, sections: map<string, seq<(string, V)>>,
                  order: seq<string>, processed: set<string>)
    returns (sections': map<string, seq<(string, V)>>, order': seq<string>, processed': set<string>)
    requires k < |results| && Grouped(order0, results[..k], sections, order, processed)
    ensures Grouped(order0, results[..k + 1], sections', order', processed')
  {
    var e := results[k];
    var section, found := Scan(order, e.0);
    Scanned(order0, results[..k], sections, order, processed, e.0, section);
    var placed := if section in sections then sections[section] else [];
    order' := if !found && section !in order then order + [section] else order;
    Step(order0, results, k, sections, order, processed, section, placed, order');
    sections' := sections[section := placed + [e]];
    processed' := processed + {e.0};
  }

  /** After the loop the prefix is the whole input. */
  lemma Finish<V>(order0: seq<string>, results: seq<(string, V)>, sections: map<string, seq<(string, V)>>,
                  order: seq<string>, processed: set<string>)
    requires Grouped(order0, results[..|results|], sections, order, processed)
    ensures Grouped(order0, results, sections, order, processed)
  {
    assert results[..|results|] == results;
  }

  /** Grouping the entry at `k` after those before it. */
  lemma Step<V>(order0: seq<string>, results: seq<(string, V)>, k: nat, sections: map<string, seq<(string, V)>>,
                order: seq<string>, processed: set<string>, section: string, placed: seq<(string, V)>, next: seq<string>)
    requires k < |results| && section == SectionOf(order0, results[k].0)
    requires Grouped(order0, results[..k], sections, order, processed)
    requires placed == if section in sections then sections[section] else []
    requires next == if section !in order then order + [section] else order
    ensures Grouped(order0, results[..k + 1], sections[section := placed + [results[k]]], next, processed + {results[k].0})
  {
    var e := results[k];
    assert results[..k + 1] == results[..k] + [e];
    StepDomain(order0, results[..k], e, sections, section, placed + [e]);
    StepContents(order0, results[..k], e, sections, section, placed);
    StepOrder(order0, results[..k], e, order, section, next);
    StepProcessed(results[..k], e, processed);
  }

  lemma StepDomain<V>(order0: seq<string>, rs: seq<(string, V)>, e: (string, V), sections: map<string, seq<(string, V)>>,
                      section: string, placed: seq<(string, V)>)
    requires DomainOf(order0, rs, sections) && section == SectionOf(order0, e.0)
    ensures DomainOf(order0, rs + [e], sections[section := placed])
  {
    var rs' := rs + [e];
    var sections' := sections[section := placed];
    assert rs'[|rs|] == e;
    forall s | s in sections' ensures exists i :: 0 <= i < |rs'| && SectionOf(order0, rs'[i].0) == s {
      if s != section {
        var i :| 0 <= i < |rs| && SectionOf(order0, rs[i].0) == s;
        assert rs'[i] == rs[i];
      }
    }
    forall i | 0 <= i < |rs'| ensures SectionOf(order0, rs'[i].0) in sections' {
      if i < |rs| { assert rs'[i] == rs[i]; }
    }
  }

  lemma StepContents<V>(order0: seq<string>, rs: seq<(string, V)>, e: (string, V), sections: map<string, seq<(string, V)>>,
                        section: string, placed: seq<(string, V)>)
    requires ContentsOf(order0, rs, sections) && DomainOf(order0, rs, sections) && section == SectionOf(order0, e.0)
    requires placed == if section in sections then sections[section] else []
    ensures ContentsOf(order0, rs + [e], sections[section := placed + [e]])
  {
    var sections' := sections[section := placed + [e]];
    forall s | s in sections' ensures sections'[s] == Where(rs + [e], InSection(order0, s)) {
      if s == section {
        Placed(rs, e, order0, section);
        if section !in sections {
          forall i | 0 <= i < |rs| ensures !InSection(order0, section)(rs[i]) {
            assert SectionOf(order0, rs[i].0) != section;
          }
        }
      } else {
        NotPlaced(rs, e, order0, s);
      }
    }
  }

  lemma StepProcessed<V>(rs: seq<(string, V)>, e: (string, V), processed: set<string>)
    requires ProcessedOf(rs, processed)
    ensures ProcessedOf(rs + [e], processed + {e.0})
  {
    var rs' := rs + [e];
    assert rs'[|rs|] == e;
    forall x ensures x in processed + {e.0} <==> x in set i | 0 <= i < |rs'| :: rs'[i].0 {
      if i :| 0 <= i < |rs| && rs[i].0 == x {
        assert rs'[i] == rs[i];
      }
      if i :| 0 <= i < |rs'| && rs'[i].0 == x {
        if i < |rs| { assert rs'[i] == rs[i]; }
      }
    }
  }

  /** The fallback joins the order the first time an entry lands in it. */
  lemma StepOrder<V>(order0: seq<string>, rs: seq<(string, V)>, e: (string, V), order: seq<string>,
                     section: string, next: seq<string>)
    requires OrderOf(order0, rs, order) && section == SectionOf(order0, e.0)
    requires next == if section !in order then order + [section] else order
    ensures OrderOf(order0, rs + [e], next)
  {
    var rs' := rs + [e];
    assert rs'[|rs|] == e;
    if NeedsFallback(order0, rs) {
      var i :| 0 <= i < |rs| && SectionOf(order0, rs[i].0) == Fallback(order0);
      assert rs'[i] == rs[i];
    }
    if section !in order0 {
      assert section == Fallback(order0);
    }
    if i :| 0 <= i < |rs'| && SectionOf(order0, rs'[i].0) == Fallback(order0) {
      if i < |rs| { assert rs'[i] == rs[i]; }
    }
  }

  /** One more entry extends its own section's list. */
  lemma Placed<V>(rs: seq<(string, V)>, e: (string, V), order0: seq<string>, section: string)
    requires section == SectionOf(order0, e.0)
    ensures Where(rs + [e], InSection(order0, section)) == Where(rs, InSection(order0, section)) + [e]
  {
    WhereAppend(rs, [e], InSection(order0, section));
  }

  /** One more entry leaves every other section's list as it was. */
  lemma NotPlaced<V>(rs: seq<(string, V)>, e: (string, V), order0: seq<string>, s: string)
    requires s != SectionOf(order0, e.0)
    ensures Where(rs + [e], InSection(order0, s)) == Where(rs, InSection(order0, s))
  {
    WhereAppend(rs, [e], InSection(order0, s));
  }


  /**
   * After grouping, every entry is listed in the section its caption
   * selects, and every listed entry is one of the inputs.
   */
  lemma EachEntryPlaced<V>(order0: seq<string>, results: seq<(string, V)>, sections: map<string, seq<(string, V)>>,
                           order: seq<string>, processed: set<string>)
    requires Grouped(order0, results, sections, order, processed)
    ensures forall i :: 0 <= i < |results| ==>
      SectionOf(order0, results[i].0) in sections && results[i] in sections[SectionOf(order0, results[i].0)]
    ensures forall s, e :: s in sections && e in sections[s] ==> e in results && SectionOf(order0, e.0) == s
  {
    forall i | 0 <= i < |results|
      ensures SectionOf(order0, results[i].0) in sections && results[i] in sections[SectionOf(order0, results[i].0)]
    {
      var s := SectionOf(order0, results[i].0);
      assert InSection(order0, s)(results[i]);
    }
    forall s, e | s in sections && e in sections[s] ensures e in results && SectionOf(order0, e.0) == s {
      var j :| 0 <= j < |sections[s]| && sections[s][j] == e;
      assert InSection(order0, s)(sections[s][j]);
    }
  }
}
