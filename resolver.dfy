/** The public resolver `getActiveToursByPage`: which tours a page shows, in which
    language, and which tour's presentation configures the page. */
module Resolver {
  import opened Records
  import opened Strings
  import opened Sorting
  import opened Tables
  import opened Ordering

  /** The presentation settings of the page, taken from one tour. */
  datatype PageConfig = PageConfig(
    shadowRgb: string,
    shadowOpacity: string,
    interact: bool,
    cardTransition: Transition,
    bgColor: string,
    textColor: string,
    fontFamily: string)

  /** A step as the playback client receives it. */
  datatype ShownStep = ShownStep(
    icon: Option<string>,
    title: string,
    content: string,
    selector: string,
    side: string,
    showControls: bool,
    pointerPadding: int,
    pointerRadius: int,
    nextRoute: Option<string>,
    prevRoute: Option<string>,
    translations: map<string, Translation>)

  /** A tour as the playback client receives it: its slug and its steps. */
  datatype ShownTour = ShownTour(tour: string, steps: seq<ShownStep>)

  /** The resolver's answer: `{ tours, config }`, `config` null when no tour matched. */
  datatype PageTours = PageTours(tours: seq<ShownTour>, config: Option<PageConfig>)

  // ---------------------------------------------------------------
  // Selection
  // ---------------------------------------------------------------

  /** `device || 'all'`. */
  function RequestedDevice(device: Option<string>): (r: string)
    ensures r != ""
    ensures device.None? || device == Some("") ==> r == "all"
    ensures device.Some? && device.value != "" ==> r == device.value
  {
    OrElse(device, "all")
  }

  /** The stored path equals the page path or is a suffix of it, or the page path is a suffix of the stored one. */
  predicate PathMatches(stored: string, page: string): (r: bool)
    // `page_path = $1` adds nothing: a path is a suffix of itself
    ensures r <==> EndsWith(page, stored) || EndsWith(stored, page)
  {
    stored == page || EndsWith(page, stored) || EndsWith(stored, page)
  }

  /** The `WHERE` clause: path match, active, and visible on the requested device. */
  predicate Selected(t: Tour, page: string, device: string)
  {
    && PathMatches(t.pagePath, page)
    && t.isActive
    && (t.deviceVisibility == All || DeviceName(t.deviceVisibility) == device)
  }

  function SelectedTours(tours: seq<Tour>, page: string, device: string): (r: seq<Tour>)
    ensures forall t :: t in r <==> t in tours && Selected(t, page, device)
    decreases |tours|
  {
    if tours == [] then []
    else
      var init, last := tours[..|tours| - 1], tours[|tours| - 1];
      assert tours == init + [last];
      SelectedTours(init, page, device) + (if Selected(last, page, device) then [last] else [])
  }

  /** A selected tour is kept as often as the table holds it. */
  lemma {:induction false} SelectedMultiplicity(tours: seq<Tour>, page: string, device: string, t: Tour)
    requires Selected(t, page, device)
    ensures multiset(SelectedTours(tours, page, device))[t] == multiset(tours)[t]
  {
    if tours != [] {
      var init, last := tours[..|tours| - 1], tours[|tours| - 1];
      assert tours == init + [last];
      SelectedMultiplicity(init, page, device, t);
    }
  }

  function CreatedAt(t: Tour): int { t.createdAt }

  predicate OldestFirst(ts: seq<Tour>)
  {
    forall i, j :: 0 <= i < j < |ts| ==> ts[i].createdAt <= ts[j].createdAt
  }

  /** The selected tours, `ORDER BY created_at ASC`. */
  function Candidates(tours: seq<Tour>, page: string, device: string): (r: seq<Tour>)
    ensures forall t :: t in r <==> t in tours && Selected(t, page, device)
    ensures |r| == |SelectedTours(tours, page, device)|
    ensures multiset(r) == multiset(SelectedTours(tours, page, device))
    ensures OldestFirst(r)
  {
    var selected := SelectedTours(tours, page, device);
    var sorted := SortBy(selected, CreatedAt);
    assert forall t :: t in sorted <==> t in selected by {
      forall t ensures t in sorted <==> t in selected {
        assert t in sorted <==> multiset(sorted)[t] > 0;
        assert t in selected <==> multiset(selected)[t] > 0;
      }
    }
    assert forall i, j :: 0 <= i < j < |sorted| ==> CreatedAt(sorted[i]) <= CreatedAt(sorted[j]);
    sorted
  }

  // ---------------------------------------------------------------
  // Localisation
  // ---------------------------------------------------------------

  /** `locale && !locale.startsWith('en')`: a locale is requested and it is not English. */
  predicate NonEnglish(locale: Option<string>)
  {
    locale.Some? && locale.value != "" && !StartsWith(locale.value, "en")
  }

  /** A step's translation map, `{}` when the column is null. */
  function TranslationsOf(s: Step): map<string, Translation>
  {
    if s.translations.Some? then s.translations.value else map[]
  }

  /** The step has a non-empty title and content for `locale`. */
  predicate Complete(s: Step, locale: string)
  {
    var m := TranslationsOf(s);
    && locale in m
    && m[locale].title.Some? && m[locale].title.value != ""
    && m[locale].content.Some? && m[locale].content.value != ""
  }

  /** The step as shown: translated text for a non-English locale when complete, else the original. */
  function ShowStep(s: Step, locale: Option<string>): (r: ShownStep)
    ensures NonEnglish(locale) && Complete(s, locale.value) ==>
      && r.title == TranslationsOf(s)[locale.value].title.value
      && r.content == TranslationsOf(s)[locale.value].content.value
    ensures !(NonEnglish(locale) && Complete(s, locale.value)) ==> r.title == s.title && r.content == s.content
    ensures r.selector == s.selector && r.side == s.side && r.icon == s.icon && r.translations == TranslationsOf(s)
    ensures && r.showControls == s.showControls && r.pointerPadding == s.pointerPadding
            && r.pointerRadius == s.pointerRadius && r.nextRoute == s.nextRoute && r.prevRoute == s.prevRoute
  {
    var m := TranslationsOf(s);
    var translated := NonEnglish(locale) && Complete(s, locale.value);
    ShownStep(
      icon := s.icon,
      title := if translated then m[locale.value].title.value else s.title,
      content := if translated then m[locale.value].content.value else s.content,
      selector := s.selector,
      side := s.side,
      showControls := s.showControls,
      pointerPadding := s.pointerPadding,
      pointerRadius := s.pointerRadius,
      nextRoute := s.nextRoute,
      prevRoute := s.prevRoute,
      translations := m)
  }

  /** Some step lacks the requested translation, which makes the resolver skip the whole tour. */
  predicate Untranslated(ss: seq<Step>, locale: Option<string>)
  {
    NonEnglish(locale) && exists s :: s in ss && !Complete(s, locale.value)
  }

  function ShowSteps(ss: seq<Step>, locale: Option<string>): (r: seq<ShownStep>)
    ensures |r| == |ss| && forall k :: 0 <= k < |ss| ==> r[k] == ShowStep(ss[k], locale)
  {
    seq(|ss|, k requires 0 <= k < |ss| => ShowStep(ss[k], locale))
  }

  /** The tour as shown, or nothing when it has no steps or some step lacks the translation. */
  function ShowTour(t: Tour, steps: seq<Step>, locale: Option<string>): (r: Option<ShownTour>)
    ensures r.Some? <==> StepsOf(steps, t.id) != [] && !Untranslated(StepsOf(steps, t.id), locale)
    ensures r.Some? ==> r.value.tour == t.tourSlug && r.value.steps == ShowSteps(TourSteps(steps, t.id), locale)
  {
    var ordered := TourSteps(steps, t.id);
    var sibs := StepsOf(steps, t.id);
    assert forall s :: s in ordered <==> s in sibs;
    assert |ordered| == 0 <==> sibs == [];
    if ordered != [] && !Untranslated(ordered, locale) then Some(ShownTour(t.tourSlug, ShowSteps(ordered, locale)))
    else None
  }

  // ---------------------------------------------------------------
  // The answer
  // ---------------------------------------------------------------

  /** The candidates that are shown, in candidate order. */
  function Survivors(cands: seq<Tour>, steps: seq<Step>, locale: Option<string>): (r: seq<Tour>)
    ensures forall t :: t in r <==> t in cands && ShowTour(t, steps, locale).Some?
    ensures OldestFirst(cands) ==> OldestFirst(r)
    decreases |cands|
  {
    if cands == [] then []
    else
      var init, last := cands[..|cands| - 1], cands[|cands| - 1];
      assert cands == init + [last];
      var kept := Survivors(init, steps, locale);
      var r := kept + (if ShowTour(last, steps, locale).Some? then [last] else []);
      assert OldestFirst(cands) ==> OldestFirst(r) by {
        if OldestFirst(cands) {
          OldestFirstSnoc(init, last, kept, ShowTour(last, steps, locale).Some?);
        }
      }
      r
  }

  /** A shown candidate is kept as often as it is a candidate. */
  lemma {:induction false} SurvivorsMultiplicity(cands: seq<Tour>, steps: seq<Step>, locale: Option<string>, t: Tour)
    requires ShowTour(t, steps, locale).Some?
    ensures multiset(Survivors(cands, steps, locale))[t] == multiset(cands)[t]
  {
    if cands != [] {
      var init, last := cands[..|cands| - 1], cands[|cands| - 1];
      assert cands == init + [last];
      SurvivorsMultiplicity(init, steps, locale, t);
    }
  }

  /** Appending the last candidate keeps a subsequence of the earlier ones oldest first. */
  lemma OldestFirstSnoc(init: seq<Tour>, last: Tour, kept: seq<Tour>, add: bool)
    requires OldestFirst(init + [last])
    requires forall t :: t in kept ==> t in init
    ensures OldestFirst(init)
    ensures OldestFirst(kept) ==> OldestFirst(kept + (if add then [last] else []))
  {
    var cands := init + [last];
    assert OldestFirst(init) by {
      forall i, j | 0 <= i < j < |init| ensures init[i].createdAt <= init[j].createdAt {
        assert init[i] == cands[i] && init[j] == cands[j];
      }
    }
    forall t | t in kept ensures t.createdAt <= last.createdAt {
      var m :| 0 <= m < |init| && init[m] == t;
      assert cands[m] == t && cands[|init|] == last;
    }
    var r := kept + (if add then [last] else []);
    if OldestFirst(kept) {
      forall i, j | 0 <= i < j < |r| ensures r[i].createdAt <= r[j].createdAt {
        if j < |kept| {
          assert r[i] == kept[i] && r[j] == kept[j];
        } else {
          assert r[i] == kept[i] && kept[i] in kept && r[j] == last;
        }
      }
    }
  }

  /** The page configuration of the first (oldest) candidate; `{type: "spring", duration: 300}`
      when it has no card transition. */
  function ConfigOf(t: Tour): (r: PageConfig)
    ensures t.cardTransition.None? ==> r.cardTransition == DefaultTransition
    ensures t.cardTransition.Some? ==> r.cardTransition == t.cardTransition.value
    ensures r.shadowRgb == t.shadowRgb && r.shadowOpacity == t.shadowOpacity && r.interact == t.interact
    ensures r.bgColor == t.bgColor && r.textColor == t.textColor && r.fontFamily == t.fontFamily
  {
    PageConfig(
      shadowRgb := t.shadowRgb,
      shadowOpacity := t.shadowOpacity,
      interact := t.interact,
      cardTransition := Nullish(t.cardTransition, DefaultTransition),
      bgColor := t.bgColor,
      textColor := t.textColor,
      fontFamily := t.fontFamily)
  }

  /** `getActiveToursByPage(pagePath, locale, device)`. */
  function ActiveToursByPage(tours: seq<Tour>, steps: seq<Step>, page: string, locale: Option<string>, device: Option<string>)
    : (r: PageTours)
    ensures r.config.None? <==> forall t :: t in tours ==> !Selected(t, page, RequestedDevice(device))
    ensures r.config.None? ==> r.tours == []
  {
    var cands := Candidates(tours, page, RequestedDevice(device));
    if cands == [] then PageTours([], None)
    else
      assert cands[0] in cands;
      var shown := Survivors(cands, steps, locale);
      PageTours(seq(|shown|, k requires 0 <= k < |shown| => ShowTour(shown[k], steps, locale).value), Some(ConfigOf(cands[0])))
  }

  /** The tours shown are exactly the selected tours that have steps and, for a non-English
      locale, a complete translation of every step; oldest first, and each as often as the
      table holds it, so once when tour ids are unique. */
  lemma ActiveToursShown(tours: seq<Tour>, steps: seq<Step>, page: string, locale: Option<string>, device: Option<string>)
    ensures var r := ActiveToursByPage(tours, steps, page, locale, device);
      var shown := Survivors(Candidates(tours, page, RequestedDevice(device)), steps, locale);
      && |shown| == |r.tours|
      && OldestFirst(shown)
      && (forall t :: t in shown <==>
            t in tours && Selected(t, page, RequestedDevice(device))
            && StepsOf(steps, t.id) != [] && !Untranslated(StepsOf(steps, t.id), locale))
      && (forall k :: 0 <= k < |shown| ==> Some(r.tours[k]) == ShowTour(shown[k], steps, locale))
      && (forall t :: t in shown ==> multiset(shown)[t] == multiset(tours)[t])
      && (UniqueTourIds(tours) ==> forall t :: t in shown ==> multiset(shown)[t] == 1)
  {
    ShownAnswer(tours, steps, page, locale, device);
    ShownMembers(tours, steps, page, locale, RequestedDevice(device));
    ShownMultiplicity(tours, steps, page, locale, device);
  }

  /** The answer's tours are the survivors, each shown through `ShowTour`. */
  lemma ShownAnswer(tours: seq<Tour>, steps: seq<Step>, page: string, locale: Option<string>, device: Option<string>)
    ensures var r := ActiveToursByPage(tours, steps, page, locale, device);
      var shown := Survivors(Candidates(tours, page, RequestedDevice(device)), steps, locale);
      && |shown| == |r.tours|
      && forall k :: 0 <= k < |shown| ==> Some(r.tours[k]) == ShowTour(shown[k], steps, locale)
  {
    var cands := Candidates(tours, page, RequestedDevice(device));
    if cands == [] {
      assert Survivors(cands, steps, locale) == [];
    }
  }

  /** The survivors of the candidates for one device name: membership and order. */
  lemma ShownMembers(tours: seq<Tour>, steps: seq<Step>, page: string, locale: Option<string>, dev: string)
    ensures var shown := Survivors(Candidates(tours, page, dev), steps, locale);
      && OldestFirst(shown)
      && forall t :: t in shown <==>
           t in tours && Selected(t, page, dev) && StepsOf(steps, t.id) != [] && !Untranslated(StepsOf(steps, t.id), locale)
  {
  }

  /** Each shown tour is shown as often as the table holds it. */
  lemma ShownMultiplicity(tours: seq<Tour>, steps: seq<Step>, page: string, locale: Option<string>, device: Option<string>)
    ensures var shown := Survivors(Candidates(tours, page, RequestedDevice(device)), steps, locale);
      && (forall t :: t in shown ==> multiset(shown)[t] == multiset(tours)[t])
      && (UniqueTourIds(tours) ==> forall t :: t in shown ==> multiset(shown)[t] == 1)
  {
    var dev := RequestedDevice(device);
    var cands := Candidates(tours, page, dev);
    var shown := Survivors(cands, steps, locale);
    forall t | t in shown
      ensures multiset(shown)[t] == multiset(tours)[t]
    {
      SurvivorsMultiplicity(cands, steps, locale, t);
      SelectedMultiplicity(tours, page, dev, t);
    }
    if UniqueTourIds(tours) {
      forall t | t in shown
        ensures multiset(shown)[t] == 1
      {
        UniqueOnce(tours, t);
      }
    }
  }

  /** The page is configured by a selected tour created no later than any other selected tour. */
  lemma ActiveToursConfig(tours: seq<Tour>, steps: seq<Step>, page: string, locale: Option<string>, device: Option<string>)
    requires exists t :: t in tours && Selected(t, page, RequestedDevice(device))
    ensures var r := ActiveToursByPage(tours, steps, page, locale, device);
      exists first :: && first in tours && Selected(first, page, RequestedDevice(device))
                      && r.config == Some(ConfigOf(first))
                      && forall t :: t in tours && Selected(t, page, RequestedDevice(device)) ==> first.createdAt <= t.createdAt
  {
    var cands := Candidates(tours, page, RequestedDevice(device));
    var t :| t in tours && Selected(t, page, RequestedDevice(device));
    assert t in cands;
    var first := cands[0];
    assert first in cands;
    forall u | u in tours && Selected(u, page, RequestedDevice(device))
      ensures first.createdAt <= u.createdAt
    {
      var m :| 0 <= m < |cands| && cands[m] == u;
      if m > 0 { assert cands[0].createdAt <= cands[m].createdAt; }
    }
  }

  /** Under a non-English locale every shown step carries its translated text. */
  lemma ShownStepsTranslated(t: Tour, steps: seq<Step>, locale: Option<string>)
    requires NonEnglish(locale)
    requires ShowTour(t, steps, locale).Some?
    ensures var shown := ShowTour(t, steps, locale).value.steps;
      var ordered := TourSteps(steps, t.id);
      forall k :: 0 <= k < |shown| ==>
        && shown[k].title == TranslationsOf(ordered[k])[locale.value].title.value
        && shown[k].content == TranslationsOf(ordered[k])[locale.value].content.value
  {
    var ordered := TourSteps(steps, t.id);
    forall k | 0 <= k < |ordered|
      ensures Complete(ordered[k], locale.value)
    {
      assert ordered[k] in ordered;
    }
  }

  /** Without a locale, or with an English one, every step keeps its original text. */
  lemma ShownStepsOriginal(t: Tour, steps: seq<Step>, locale: Option<string>)
    requires !NonEnglish(locale)
    requires ShowTour(t, steps, locale).Some?
    ensures var shown := ShowTour(t, steps, locale).value.steps;
      var ordered := TourSteps(steps, t.id);
      forall k :: 0 <= k < |shown| ==> shown[k].title == ordered[k].title && shown[k].content == ordered[k].content
  {
  }

  /** `/en/dashboard` shows a tour stored under `/dashboard`, and `/dashboard` one stored under
      `/app/dashboard`; `/settings` shows neither. */
  lemma PathMatchExamples()
    ensures PathMatches("/dashboard", "/en/dashboard")
    ensures PathMatches("/app/dashboard", "/dashboard")
    ensures !PathMatches("/dashboard", "/settings")
  {
    assert "/en/dashboard"[|"/en/dashboard"| - |"/dashboard"|..] == "/dashboard";
    assert "/app/dashboard"[|"/app/dashboard"| - |"/dashboard"|..] == "/dashboard";
    assert "/settings"[|"/settings"| - 9..] != "/dashboard";
  }
}
