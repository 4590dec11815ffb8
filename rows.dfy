/** The rows the store writes: a created tour or step with its documented defaults,
    a tour's duplicate, a toggled tour, and a row after a partial update. */
module Rows {
  import opened Records
  import opened Strings
  import opened Columns

  const DefaultShadowRgb := "0,0,0"
  const DefaultShadowOpacity := "0.2"
  const DefaultBgColor := "bg-white dark:bg-slate-900"
  const DefaultTextColor := "text-slate-600 dark:text-slate-400"
  const DefaultFontFamily := "font-sans"
  const DefaultSide := "bottom"
  const DefaultPointer := 10

  // ---------------------------------------------------------------
  // createTour
  // ---------------------------------------------------------------

  /** The draft supplies every column the table cannot leave empty. */
  predicate TourDraftComplete(d: TourDraft)
  {
    d.tourSlug.Some? && d.name.Some? && d.pagePath.Some?
  }

  /** `device_visibility || 'all'` as the column's enumerated value; `None` when the
      database would refuse the text. */
  function DraftDevice(d: TourDraft): (r: Option<Device>)
    ensures d.deviceVisibility.None? || d.deviceVisibility == Some("") ==> r == Some(All)
    ensures r.Some? ==> d.deviceVisibility.None? || d.deviceVisibility == Some("")
                        || DeviceName(r.value) == d.deviceVisibility.value
  {
    ParseDevice(OrElse(d.deviceVisibility, "all"))
  }

  /** The row `INSERT INTO tours ... RETURNING *` produces, or the database's refusal. */
  function CreatedTour(d: TourDraft, id: Id, now: int): (r: Result<Tour>)
    ensures r.Err? <==> !TourDraftComplete(d)
                        || (d.deviceVisibility.Some? && d.deviceVisibility.value != ""
                            && d.deviceVisibility.value !in ["all", "desktop", "mobile"])
    ensures r.Err? ==> r.error == Rejected
    ensures r.Ok? ==> r.value.id == id && r.value.createdAt == now && r.value.updatedAt == now
    ensures r.Ok? ==> && r.value.tourSlug == d.tourSlug.value
                      && r.value.name == d.name.value
                      && r.value.pagePath == d.pagePath.value
                      && r.value.description == d.description
                      && r.value.cardTransition == d.cardTransition
                      && r.value.showCondition == d.showCondition
  {
    if !TourDraftComplete(d) || DraftDevice(d).None? then Err(Rejected)
    else Ok(Tour(
      id := id,
      tourSlug := d.tourSlug.value,
      name := d.name.value,
      description := d.description,
      pagePath := d.pagePath.value,
      isActive := Nullish(d.isActive, true),
      shadowRgb := OrElse(d.shadowRgb, DefaultShadowRgb),
      shadowOpacity := OrElse(d.shadowOpacity, DefaultShadowOpacity),
      interact := Nullish(d.interact, false),
      cardTransition := d.cardTransition,
      showCondition := d.showCondition,
      bgColor := OrElse(d.bgColor, DefaultBgColor),
      textColor := OrElse(d.textColor, DefaultTextColor),
      fontFamily := OrElse(d.fontFamily, DefaultFontFamily),
      deviceVisibility := DraftDevice(d).value,
      createdAt := now,
      updatedAt := now))
  }

  /** Every key the draft leaves out gets its documented default, whatever else it supplies. */
  lemma CreatedTourDefaults(d: TourDraft, id: Id, now: int)
    requires CreatedTour(d, id, now).Ok?
    ensures var t := CreatedTour(d, id, now).value;
      && (d.isActive.None? ==> t.isActive)
      && (d.shadowRgb.None? ==> t.shadowRgb == "0,0,0")
      && (d.shadowOpacity.None? ==> t.shadowOpacity == "0.2")
      && (d.interact.None? ==> !t.interact)
      && (d.bgColor.None? ==> t.bgColor == "bg-white dark:bg-slate-900")
      && (d.textColor.None? ==> t.textColor == "text-slate-600 dark:text-slate-400")
      && (d.fontFamily.None? ==> t.fontFamily == "font-sans")
      && (d.deviceVisibility.None? ==> t.deviceVisibility == All)
      && (d.description.None? ==> t.description.None?)
      && (d.cardTransition.None? ==> t.cardTransition.None?)
  {
  }

  /** `is_active` uses `??`: an explicit `false` is kept. The string columns use `||`:
      an empty string falls back to the default like an absent one. */
  lemma CreatedTourFallbacks(d: TourDraft, id: Id, now: int)
    requires CreatedTour(d, id, now).Ok?
    ensures d.isActive == Some(false) ==> !CreatedTour(d, id, now).value.isActive
    ensures d.shadowRgb == Some("") ==> CreatedTour(d, id, now).value.shadowRgb == DefaultShadowRgb
    ensures d.shadowOpacity == Some("") ==> CreatedTour(d, id, now).value.shadowOpacity == DefaultShadowOpacity
    ensures d.bgColor == Some("") ==> CreatedTour(d, id, now).value.bgColor == DefaultBgColor
    ensures d.textColor == Some("") ==> CreatedTour(d, id, now).value.textColor == DefaultTextColor
    ensures d.fontFamily == Some("") ==> CreatedTour(d, id, now).value.fontFamily == DefaultFontFamily
    ensures d.deviceVisibility == Some("") ==> CreatedTour(d, id, now).value.deviceVisibility == All
    ensures d.interact == Some(false) ==> !CreatedTour(d, id, now).value.interact
  {
  }

  /** Every non-empty value the draft supplies is the value stored. */
  lemma CreatedTourKeepsSupplied(d: TourDraft, id: Id, now: int)
    requires CreatedTour(d, id, now).Ok?
    ensures var t := CreatedTour(d, id, now).value;
      && (d.isActive.Some? ==> t.isActive == d.isActive.value)
      && (d.interact.Some? ==> t.interact == d.interact.value)
      && (d.deviceVisibility.Some? && d.deviceVisibility.value != "" ==>
            DeviceName(t.deviceVisibility) == d.deviceVisibility.value)
      && (d.shadowRgb.Some? && d.shadowRgb.value != "" ==> t.shadowRgb == d.shadowRgb.value)
      && (d.shadowOpacity.Some? && d.shadowOpacity.value != "" ==> t.shadowOpacity == d.shadowOpacity.value)
      && (d.bgColor.Some? && d.bgColor.value != "" ==> t.bgColor == d.bgColor.value)
      && (d.textColor.Some? && d.textColor.value != "" ==> t.textColor == d.textColor.value)
      && (d.fontFamily.Some? && d.fontFamily.value != "" ==> t.fontFamily == d.fontFamily.value)
  {
  }

  // ---------------------------------------------------------------
  // createStep
  // ---------------------------------------------------------------

  predicate StepDraftComplete(d: StepDraft)
  {
    d.title.Some? && d.content.Some? && d.selector.Some?
  }

  /** The row `INSERT INTO steps ... RETURNING *` produces at position `order`, or the refusal. */
  function CreatedStep(tourId: Id, d: StepDraft, id: Id, order: int, now: int): (r: Result<Step>)
    ensures r.Err? <==> !StepDraftComplete(d)
    ensures r.Err? ==> r.error == Rejected
    ensures r.Ok? ==> && r.value.id == id && r.value.tourId == tourId && r.value.orderIndex == order
                      && r.value.createdAt == now && r.value.updatedAt == now
    ensures r.Ok? ==> && r.value.title == d.title.value
                      && r.value.content == d.content.value
                      && r.value.selector == d.selector.value
                      && r.value.icon == d.icon
                      && r.value.nextRoute == d.nextRoute && r.value.prevRoute == d.prevRoute
                      && r.value.translations.Some?
  {
    if !StepDraftComplete(d) then Err(Rejected)
    else Ok(Step(
      id := id,
      tourId := tourId,
      orderIndex := order,
      title := d.title.value,
      content := d.content.value,
      icon := d.icon,
      selector := d.selector.value,
      side := OrElse(d.side, DefaultSide),
      showControls := Nullish(d.showControls, true),
      pointerPadding := Nullish(d.pointerPadding, DefaultPointer),
      pointerRadius := Nullish(d.pointerRadius, DefaultPointer),
      nextRoute := d.nextRoute,
      prevRoute := d.prevRoute,
      translations := Some(Nullish(d.translations, map[])),
      createdAt := now,
      updatedAt := now))
  }

  /** Every key the draft leaves out gets its documented step default, whatever else it supplies. */
  lemma CreatedStepDefaults(tourId: Id, d: StepDraft, id: Id, order: int, now: int)
    requires StepDraftComplete(d)
    ensures var s := CreatedStep(tourId, d, id, order, now).value;
      && (d.side.None? ==> s.side == "bottom")
      && (d.showControls.None? ==> s.showControls)
      && (d.pointerPadding.None? ==> s.pointerPadding == 10)
      && (d.pointerRadius.None? ==> s.pointerRadius == 10)
      && (d.translations.None? ==> s.translations == Some(map[]))
      && (d.icon.None? ==> s.icon.None?)
      && (d.nextRoute.None? ==> s.nextRoute.None?)
      && (d.prevRoute.None? ==> s.prevRoute.None?)
  {
  }

  /** The numeric and boolean defaults use `??`, so 0 and `false` are kept; `side` uses `||`. */
  lemma CreatedStepFallbacks(tourId: Id, d: StepDraft, id: Id, order: int, now: int)
    requires StepDraftComplete(d)
    ensures var s := CreatedStep(tourId, d, id, order, now).value;
      && (d.pointerPadding == Some(0) ==> s.pointerPadding == 0)
      && (d.pointerRadius == Some(0) ==> s.pointerRadius == 0)
      && (d.showControls == Some(false) ==> !s.showControls)
      && (d.side == Some("") ==> s.side == DefaultSide)
  {
  }

  /** Every value the draft supplies is the value stored; for `side`, every non-empty one. */
  lemma CreatedStepKeepsSupplied(tourId: Id, d: StepDraft, id: Id, order: int, now: int)
    requires StepDraftComplete(d)
    ensures var s := CreatedStep(tourId, d, id, order, now).value;
      && (d.showControls.Some? ==> s.showControls == d.showControls.value)
      && (d.pointerPadding.Some? ==> s.pointerPadding == d.pointerPadding.value)
      && (d.pointerRadius.Some? ==> s.pointerRadius == d.pointerRadius.value)
      && (d.side.Some? && d.side.value != "" ==> s.side == d.side.value)
      && (d.translations.Some? ==> s.translations == d.translations)
  {
  }

  // ---------------------------------------------------------------
  // duplicateTour, toggleTourActive
  // ---------------------------------------------------------------

  /** The copy `duplicateTour` inserts: a derived slug and name, inactive, every other column copied. */
  function DuplicatedTour(src: Tour, id: Id, suffix: string, now: int): (r: Tour)
    ensures r.id == id && r.createdAt == now && r.updatedAt == now
    ensures !r.isActive
    ensures r.tourSlug == src.tourSlug + "-copy-" + suffix && r.name == src.name + " (Copy)"
    ensures StartsWith(r.tourSlug, src.tourSlug + "-copy-") && EndsWith(r.tourSlug, suffix)
    ensures StartsWith(r.name, src.name) && EndsWith(r.name, " (Copy)")
    ensures forall k :: k != "tour_id" && k != "name" && k != "is_active" ==> TourColumn(r, k) == TourColumn(src, k)
  {
    var slug := src.tourSlug + "-copy-" + suffix;
    var name := src.name + " (Copy)";
    assert slug[..|src.tourSlug + "-copy-"|] == src.tourSlug + "-copy-";
    assert slug[|slug| - |suffix|..] == suffix;
    assert name[..|src.name|] == src.name;
    assert name[|name| - |" (Copy)"|..] == " (Copy)";
    src.(id := id, tourSlug := slug, name := name, isActive := false, createdAt := now, updatedAt := now)
  }

  /** `SET is_active = NOT is_active, updated_at = NOW()`. */
  function ToggledTour(t: Tour, now: int): (r: Tour)
    ensures r.isActive == !t.isActive && r.updatedAt == now
    ensures r.id == t.id && r.createdAt == t.createdAt
    ensures forall k :: k != "is_active" ==> TourColumn(r, k) == TourColumn(t, k)
  {
    t.(isActive := !t.isActive, updatedAt := now)
  }

  /** Toggling twice restores the tour, up to its `updated_at`. */
  lemma ToggleTwice(t: Tour, now1: int, now2: int)
    ensures ToggledTour(ToggledTour(t, now1), now2) == t.(updatedAt := now2)
  {
  }

  // ---------------------------------------------------------------
  // updateTour, updateStep
  // ---------------------------------------------------------------

  /** A tour after `UPDATE tours SET <fields>, updated_at = NOW()`. */
  function UpdatedTour(t: Tour, fields: seq<Entry>, now: int): (r: Tour)
    requires AllFitTour(fields)
    requires DistinctKeys(fields)
    ensures r.id == t.id && r.createdAt == t.createdAt && r.updatedAt == now
    ensures forall e :: e in fields ==> TourColumn(r, e.key) == e.value
    ensures forall k :: !HasKey(fields, k) ==> TourColumn(r, k) == TourColumn(t, k)
  {
    PatchTourColumns(t, fields);
    var p := PatchTour(t, fields);
    StampKeepsColumns(p, now);
    p.(updatedAt := now)
  }

  /** Setting `updated_at` changes none of the updatable columns. */
  lemma StampKeepsColumns(t: Tour, now: int)
    ensures forall k :: TourColumn(t.(updatedAt := now), k) == TourColumn(t, k)
  {
    forall k
      ensures TourColumn(t.(updatedAt := now), k) == TourColumn(t, k)
    {
    }
  }

  /** A step after `UPDATE steps SET <fields>, updated_at = NOW()`: its place is untouched. */
  function UpdatedStep(s: Step, fields: seq<Entry>, now: int): (r: Step)
    requires AllFitStep(fields)
    requires DistinctKeys(fields)
    ensures r.id == s.id && r.tourId == s.tourId && r.orderIndex == s.orderIndex
    ensures r.createdAt == s.createdAt && r.updatedAt == now
    ensures forall e :: e in fields ==> StepColumn(r, e.key) == e.value
    ensures forall k :: !HasKey(fields, k) ==> StepColumn(r, k) == StepColumn(s, k)
  {
    PatchStepColumns(s, fields);
    var p := PatchStep(s, fields);
    StampKeepsStepColumns(p, now);
    p.(updatedAt := now)
  }

  /** Setting `updated_at` changes none of the updatable step columns. */
  lemma StampKeepsStepColumns(s: Step, now: int)
    ensures forall k :: StepColumn(s.(updatedAt := now), k) == StepColumn(s, k)
  {
    forall k
      ensures StepColumn(s.(updatedAt := now), k) == StepColumn(s, k)
    {
    }
  }
}
