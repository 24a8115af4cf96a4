/** The catalog's filter sidebar: five collapsible sections whose open state
    is a list of section titles. */
module FilterSidebar {

  datatype FilterOption = FilterOption(labelText: string, value: string, count: int)

  datatype FilterSection = FilterSection(title: string, options: seq<FilterOption>)

  /** The sections and options the sidebar offers, in display order. */
  const Filters: seq<FilterSection> := [
    FilterSection("КОЛЛЕКЦИЯ", [
      FilterOption("Sports", "sports", 24),
      FilterOption("Classic", "classic", 18),
      FilterOption("Contemporary", "contemporary", 16)]),
    FilterSection("МЕХАНИЗМ", [
      FilterOption("Автоматический", "automatic", 42),
      FilterOption("Механический", "mechanical", 16)]),
    FilterSection("МАТЕРИАЛ КОРПУСА", [
      FilterOption("Нержавеющая сталь", "steel", 48),
      FilterOption("Титан", "titanium", 6),
      FilterOption("Позолота", "gold", 4)]),
    FilterSection("ЦВЕТ ЦИФЕРБЛАТА", [
      FilterOption("Черный", "black", 22),
      FilterOption("Синий", "blue", 18),
      FilterOption("Белый", "white", 12),
      FilterOption("Зеленый", "green", 6)]),
    FilterSection("ВОДОНЕПРОНИЦАЕМОСТЬ", [
      FilterOption("200м", "200m", 28),
      FilterOption("100м", "100m", 18),
      FilterOption("50м", "50m", 12)])
  ]

  predicate NoDuplicates(s: seq<string>) {
    forall i, j :: 0 <= i < j < |s| ==> s[i] != s[j]
  }

  /** The titles of `sections`, in order (`FILTERS.map(f => f.title)`). */
  function Titles(sections: seq<FilterSection>): (r: seq<string>)
    ensures |r| == |sections|
    ensures forall i :: 0 <= i < |sections| ==> r[i] == sections[i].title
    ensures forall t :: t in r <==> exists s :: s in sections && s.title == t
  {
    if |sections| == 0 then [] else [sections[0].title] + Titles(sections[1..])
  }

  /** `openSections` as the sidebar is mounted. */
  function InitialOpen(): (r: seq<string>)
    ensures |r| == |Filters| && forall i :: 0 <= i < |Filters| ==> r[i] == Filters[i].title
    ensures forall s :: s in Filters ==> s.title in r
    ensures NoDuplicates(r)
  {
    FilterTitlesDistinct();
    Titles(Filters)
  }

  /** The five section titles differ from one another. */
  lemma FilterTitlesDistinct()
    ensures NoDuplicates(Titles(Filters))
  {
    var t := Titles(Filters);
    assert t == [Filters[0].title, Filters[1].title, Filters[2].title, Filters[3].title, Filters[4].title];
    assert t == ["КОЛЛЕКЦИЯ", "МЕХАНИЗМ", "МАТЕРИАЛ КОРПУСА", "ЦВЕТ ЦИФЕРБЛАТА", "ВОДОНЕПРОНИЦАЕМОСТЬ"];
  }

  /** `prev.filter(t => t !== title)`. */
  function Remove(open: seq<string>, title: string): (r: seq<string>)
    ensures forall t :: t in r <==> t in open && t != title
    ensures NoDuplicates(open) ==> NoDuplicates(r)
    ensures |r| <= |open|
  {
    if |open| == 0 then []
    else if open[0] == title then Remove(open[1..], title)
    else
      var rest := Remove(open[1..], title);
      assert NoDuplicates(open) ==> open[0] !in open[1..] by {
        if NoDuplicates(open) {
          forall k | 0 <= k < |open[1..]|
            ensures open[1..][k] != open[0]
          {
            assert open[1..][k] == open[k + 1];
          }
        }
      }
      [open[0]] + rest
  }

  /** `toggleSection`: closes an open section, otherwise opens it by
      appending its title. */
  function Toggle(open: seq<string>, title: string): (r: seq<string>)
    ensures title in r <==> title !in open
    ensures forall t :: t != title ==> (t in r <==> t in open)
    ensures NoDuplicates(open) ==> NoDuplicates(r)
  {
    if title in open then Remove(open, title) else open + [title]
  }

  /** Toggling the same section twice restores which sections are open
      (their order may change, since a re-opened title goes last). */
  lemma ToggleTwice(open: seq<string>, title: string)
    ensures forall t :: t in Toggle(Toggle(open, title), title) <==> t in open
  {
  }

  /** Closing a section drops exactly one title when titles are distinct. */
  lemma {:induction false} CloseShrinksByOne(open: seq<string>, title: string)
    requires NoDuplicates(open) && title in open
    ensures |Toggle(open, title)| == |open| - 1
  {
    RemoveOnce(open, title);
  }

  lemma {:induction false} RemoveOnce(open: seq<string>, title: string)
    requires NoDuplicates(open) && title in open
    ensures |Remove(open, title)| == |open| - 1
  {
    if open[0] == title {
      RemoveAbsent(open[1..], title);
    } else {
      RemoveOnce(open[1..], title);
    }
  }

  lemma {:induction false} RemoveAbsent(open: seq<string>, title: string)
    requires title !in open
    ensures Remove(open, title) == open
  {
    if |open| > 0 {
      RemoveAbsent(open[1..], title);
      assert open == [open[0]] + open[1..];
    }
  }

  /** The options drawn under a section: all of them when it is open,
      none when it is closed. */
  function RenderedOptions(section: FilterSection, open: seq<string>): (r: seq<FilterOption>)
    ensures section.title !in open ==> r == []
    ensures section.title in open ==> r == section.options
  {
    if section.title in open then section.options else []
  }

  /** On mount every section shows its options. */
  lemma InitiallyAllRendered(i: int)
    requires 0 <= i < |Filters|
    ensures RenderedOptions(Filters[i], InitialOpen()) == Filters[i].options
  {
    assert Filters[i] in Filters;
  }

  /** A toggle switches between showing a section's options and hiding
      them, and leaves every other section as it was. */
  lemma ToggleRenders(open: seq<string>, title: string, section: FilterSection)
    ensures section.title == title ==>
      (RenderedOptions(section, Toggle(open, title)) == [] <==> title in open || section.options == [])
    ensures section.title != title ==>
      RenderedOptions(section, Toggle(open, title)) == RenderedOptions(section, open)
  {
  }
}
