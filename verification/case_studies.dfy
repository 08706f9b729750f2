/** The case-study grid: a fixed list of six studies, filtered by the
    category of the clicked filter button, with "all" as a wildcard. */
module CaseStudies {
  import opened Optional
  import opened Listing

  datatype CaseStudy = CaseStudy(
    id: nat, title: string, client: string, category: string, img: string,
    result1: string, result1Label: string, result2: string, result2Label: string)

  /** The studies in declaration (display) order. */
  const Studies: seq<CaseStudy> := [
    CaseStudy(1, "FinTech scale-up", "PaySwift", "finance", "1.jpg", "180%", "revenue", "2.5M", "users"),
    CaseStudy(2, "AI-driven underwriting", "InsureCorp", "finance", "2.jpg", "42%", "faster", "€12M", "savings"),
    CaseStudy(3, "Legacy modernization", "MediHealth", "healthcare", "3.jpg", "99.9%", "uptime", "300+", "hospitals"),
    CaseStudy(4, "Global ERP roll-out", "OmniCorp", "industry", "4.jpg", "28%", "cost cut", "14", "countries"),
    CaseStudy(5, "Cloud migration", "NexGenTech", "tech", "5.jpg", "50%", "faster", "99.95%", "availability"),
    CaseStudy(6, "Supply chain AI", "AutoGroup", "industry", "6.jpg", "35%", "efficiency", "€8M", "saved")
  ]

  /** The filter a click passes on: the button's `data-filter`, where a
      missing attribute is `undefined` and so takes the parameter's default. */
  function EffectiveFilter(dataFilter: Option<string>): string {
    dataFilter.GetOr(All)
  }

  /** The test `c.category === filter` of the filter callback. */
  function InCategory(filter: string): CaseStudy -> bool {
    (c: CaseStudy) => c.category == filter
  }

  /** The studies shown under a filter value. */
  function Selected(filter: string): seq<CaseStudy> {
    if filter == All then Studies else Filter(InCategory(filter), Studies)
  }

  /** `renderCards`: the placeholder when no study is in the category,
      otherwise exactly the studies of that category in declaration order,
      or every study for "all" or a button without `data-filter`. */
  function RenderCards(dataFilter: Option<string>): (g: Grid<CaseStudy>)
    ensures EffectiveFilter(dataFilter) == All ==> g == Cards(Studies)
    ensures EffectiveFilter(dataFilter) != All ==>
      && (g.Cards? ==> forall k | 0 <= k < |g.items| :: g.items[k] in Studies && g.items[k].category == dataFilter.value)
      && (g.Cards? ==> IsSubsequence(g.items, Studies))
      && (forall k | 0 <= k < |Studies| :: Studies[k].category == dataFilter.value ==> g.Cards? && Studies[k] in g.items)
      && (g.NoResults? <==> forall k | 0 <= k < |Studies| :: Studies[k].category != dataFilter.value)
  {
    Show(Selected(EffectiveFilter(dataFilter)))
  }

  /** Of the fixture list, the first two studies are the finance ones. */
  lemma FinanceSelected()
    ensures Selected("finance") == [Studies[0], Studies[1]]
  {
    var p := InCategory("finance");
    var xs := Studies;
    assert Filter(p, xs[2..]) == [] by {
      FilterNone(p, xs[2..]);
    }
    assert Filter(p, xs[1..]) == [xs[1]] by {
      FilterCons(p, xs[1..]);
      assert xs[1..][1..] == xs[2..];
    }
    FilterCons(p, xs);
  }

  /** With the fixture list, the "finance" button shows the first two
      studies. */
  lemma FinanceExample()
    ensures RenderCards(Some("finance")) == Cards([Studies[0], Studies[1]])
  {
    FinanceSelected();
  }

  /** A category no study has shows only the placeholder. */
  lemma NoMatchExample()
    ensures RenderCards(Some("retail")) == NoResults
  {
    assert Selected("retail") == [] by {
      FilterNone(InCategory("retail"), Studies);
    }
  }
}
