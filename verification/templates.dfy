/**
 * `ajax_templates`: the report templates offered to the user, namely the
 * names of the templates found (first element of each entry) that contain
 * "bika", sorted.
 */
module Templates {
  import opened Strings

  /** One entry of the template finder: its name, then a second element
      (such as a display title) that the selection never reads. */
  type TemplateEntry = (string, string)

  /** The names of the entries that contain "bika", in the finder's order. */
  function KeepBika(entries: seq<TemplateEntry>): seq<string> {
    if entries == [] then []
    else (if Contains(entries[0].0, "bika") then [entries[0].0] else []) + KeepBika(entries[1..])
  }

  /** The names of all entries, in the finder's order. */
  function Names(entries: seq<TemplateEntry>): seq<string> {
    if entries == [] then [] else [entries[0].0] + Names(entries[1..])
  }

  /** The template names shown to the user: sorted, the "bika" names only. */
  function AjaxTemplates(entries: seq<TemplateEntry>): (r: seq<string>)
    ensures Sorted(r)
    ensures multiset(r) == multiset(KeepBika(entries))
  {
    SortStringsSpec(KeepBika(entries));
    SortStrings(KeepBika(entries))
  }

  /** Filtering keeps every "bika" name as often as it occurs and drops
      every other name. */
  lemma {:induction false} KeepBikaCounts(entries: seq<TemplateEntry>, n: string)
    ensures multiset(KeepBika(entries))[n] == if Contains(n, "bika") then multiset(Names(entries))[n] else 0
    decreases |entries|
  {
    if entries != [] {
      KeepBikaCounts(entries[1..], n);
    }
  }

  /** The result holds exactly the names containing "bika", each as often
      as the finder listed it, in ascending order; and it is the only
      sorted list with these names. */
  lemma AjaxTemplatesSpec(entries: seq<TemplateEntry>)
    ensures forall n :: n in AjaxTemplates(entries) <==> n in Names(entries) && Contains(n, "bika")
    ensures forall n ::
              multiset(AjaxTemplates(entries))[n] == (if Contains(n, "bika") then multiset(Names(entries))[n] else 0)
    ensures forall s :: Sorted(s) && multiset(s) == multiset(KeepBika(entries)) ==> s == AjaxTemplates(entries)
  {
    var r := AjaxTemplates(entries);
    forall n ensures multiset(r)[n] == if Contains(n, "bika") then multiset(Names(entries))[n] else 0 {
      KeepBikaCounts(entries, n);
    }
    forall n ensures n in r <==> n in Names(entries) && Contains(n, "bika") {
      assert n in r <==> n in multiset(r);
      assert n in Names(entries) <==> n in multiset(Names(entries));
    }
    forall s | Sorted(s) && multiset(s) == multiset(KeepBika(entries)) ensures s == r {
      SortedUnique(s, r);
    }
  }

  lemma KeepBikaExample()
    ensures KeepBika([("my-bika.pt", "A"), ("x.pt", "B"), ("bika.pt", "C")]) == ["my-bika.pt", "bika.pt"]
  {
    assert Contains("my-bika.pt", "bika") by { assert OccursAt("my-bika.pt", "bika", 3); }
    assert Contains("bika.pt", "bika") by { assert OccursAt("bika.pt", "bika", 0); }
    assert !Contains("x.pt", "bika") by {
      assert "x.pt"[..4][0] != "bika"[0];
      assert |"x.pt"[1..]| < 4;
    }
  }

  /** Names are kept by substring, anywhere in the name, and come out in
      ascending order. */
  lemma TemplateExamples()
    ensures AjaxTemplates([("my-bika.pt", "A"), ("x.pt", "B"), ("bika.pt", "C")]) == ["bika.pt", "my-bika.pt"]
  {
    KeepBikaExample();
    assert ["bika.pt"][1..] == [];
    assert Below("bika.pt", "my-bika.pt");
  }
}
