/** Partial updates: the allow-list of updatable columns, the key filter applied to
    an update payload, and each table's columns read and written as loosely typed
    values, with the laws that make `UPDATE ... SET k1 = v1, k2 = v2` mean what it says. */
module Columns {
  import opened Records

  /** The keys `updateTour` accepts. */
  const TourKeys: seq<string> := [
    "tour_id", "name", "description", "page_path", "is_active",
    "shadow_rgb", "shadow_opacity", "interact", "card_transition", "show_condition",
    "bg_color", "text_color", "font_family", "device_visibility"]

  /** The keys `updateStep` accepts. */
  const StepKeys: seq<string> := [
    "title", "content", "icon", "selector", "side",
    "show_controls", "pointer_padding", "pointer_radius", "next_route", "prev_route", "translations"]

  /** No key occurs twice, as in the entries of a JavaScript object. */
  predicate DistinctKeys(data: seq<Entry>)
  {
    forall i, j :: 0 <= i < j < |data| ==> data[i].key != data[j].key
  }

  predicate HasKey(data: seq<Entry>, key: string)
  {
    exists e :: e in data && e.key == key
  }

  /** The payload's entries whose key is allow-listed, in payload order. */
  function Recognized(data: seq<Entry>, allowed: seq<string>): (r: seq<Entry>)
    ensures |r| <= |data|
    ensures forall e :: e in r <==> e in data && e.key in allowed
    decreases |data|
  {
    if data == [] then []
    else
      var init, last := data[..|data| - 1], data[|data| - 1];
      assert data == init + [last];
      Recognized(init, allowed) + (if last.key in allowed then [last] else [])
  }

  lemma {:induction false} RecognizedDistinct(data: seq<Entry>, allowed: seq<string>)
    requires DistinctKeys(data)
    ensures DistinctKeys(Recognized(data, allowed))
  {
    if data != [] {
      var init, last := data[..|data| - 1], data[|data| - 1];
      RecognizedDistinct(init, allowed);
      forall e | e in Recognized(init, allowed)
        ensures e.key != last.key
      {
        var m :| 0 <= m < |init| && init[m] == e;
        assert data[m] == e;
      }
    }
  }

  /** The `for (const [key, value] of Object.entries(data))` loop that builds the `SET` list. */
  method CollectFields(data: seq<Entry>, allowed: seq<string>) returns (fields: seq<Entry>)
    ensures fields == Recognized(data, allowed)
    ensures fields == [] <==> forall e :: e in data ==> e.key !in allowed
  {
    fields := [];
    for i := 0 to |data|
      invariant fields == Recognized(data[..i], allowed)
    {
      assert data[..i + 1][..i] == data[..i];
      if data[i].key in allowed {
        fields := fields + [data[i]];
      }
    }
    assert data[..|data|] == data;
    if fields != [] {
      assert fields[0] in data && fields[0].key in allowed;
    }
  }

  function OptText(x: Option<string>): Value
  {
    if x.Some? then Text(x.value) else Null
  }

  // ---------------------------------------------------------------
  // tours
  // ---------------------------------------------------------------

  /** The updatable columns of `tours`. */
  datatype TourCol =
    | SlugCol | NameCol | DescriptionCol | PagePathCol | IsActiveCol
    | ShadowRgbCol | ShadowOpacityCol | InteractCol | CardTransitionCol | ShowConditionCol
    | BgColorCol | TextColorCol | FontFamilyCol | DeviceVisibilityCol

  /** The column's name in the table. */
  function TourColName(c: TourCol): (r: string)
    ensures r in TourKeys
  {
    match c
    case SlugCol => "tour_id"
    case NameCol => "name"
    case DescriptionCol => "description"
    case PagePathCol => "page_path"
    case IsActiveCol => "is_active"
    case ShadowRgbCol => "shadow_rgb"
    case ShadowOpacityCol => "shadow_opacity"
    case InteractCol => "interact"
    case CardTransitionCol => "card_transition"
    case ShowConditionCol => "show_condition"
    case BgColorCol => "bg_color"
    case TextColorCol => "text_color"
    case FontFamilyCol => "font_family"
    case DeviceVisibilityCol => "device_visibility"
  }

  /** The column a key names, if it names one. */
  function TourColNamed(key: string): (r: Option<TourCol>)
    ensures r.Some? ==> TourColName(r.value) == key
  {
    if key == "tour_id" then Some(SlugCol)
    else if key == "name" then Some(NameCol)
    else if key == "description" then Some(DescriptionCol)
    else if key == "page_path" then Some(PagePathCol)
    else if key == "is_active" then Some(IsActiveCol)
    else if key == "shadow_rgb" then Some(ShadowRgbCol)
    else if key == "shadow_opacity" then Some(ShadowOpacityCol)
    else if key == "interact" then Some(InteractCol)
    else if key == "card_transition" then Some(CardTransitionCol)
    else if key == "show_condition" then Some(ShowConditionCol)
    else if key == "bg_color" then Some(BgColorCol)
    else if key == "text_color" then Some(TextColorCol)
    else if key == "font_family" then Some(FontFamilyCol)
    else if key == "device_visibility" then Some(DeviceVisibilityCol)
    else None
  }

  /** Every column is found by its name. */
  lemma TourColNamedByName(c: TourCol)
    ensures TourColNamed(TourColName(c)) == Some(c)
  {
  }

  /** A tour's column `c`, as the value an update would write there. */
  function TourCell(t: Tour, c: TourCol): Value
  {
    match c
    case SlugCol => Text(t.tourSlug)
    case NameCol => Text(t.name)
    case DescriptionCol => OptText(t.description)
    case PagePathCol => Text(t.pagePath)
    case IsActiveCol => Flag(t.isActive)
    case ShadowRgbCol => Text(t.shadowRgb)
    case ShadowOpacityCol => Text(t.shadowOpacity)
    case InteractCol => Flag(t.interact)
    case CardTransitionCol => if t.cardTransition.Some? then TransitionSpec(t.cardTransition.value) else Null
    case ShowConditionCol => t.showCondition
    case BgColorCol => Text(t.bgColor)
    case TextColorCol => Text(t.textColor)
    case FontFamilyCol => Text(t.fontFamily)
    case DeviceVisibilityCol => Text(DeviceName(t.deviceVisibility))
  }

  /** A tour's column `key`; a key that names no column reads as `NULL`. */
  function TourColumn(t: Tour, key: string): Value
  {
    match TourColNamed(key)
    case None => Null
    case Some(c) => TourCell(t, c)
  }

  /** The database accepts `v` in column `c`: the column's type, `NULL` only where the
      column is nullable, and `device_visibility` one of its three names. */
  predicate FitsTourCell(c: TourCol, v: Value)
  {
    match c
    case DescriptionCol => v.Text? || v.Null?
    case IsActiveCol => v.Flag?
    case InteractCol => v.Flag?
    case CardTransitionCol => v.TransitionSpec? || v.Null?
    case ShowConditionCol => true
    case DeviceVisibilityCol => v.Text? && ParseDevice(v.text).Some?
    case _ => v.Text?
  }

  predicate FitsTourColumn(key: string, v: Value)
  {
    match TourColNamed(key)
    case None => false
    case Some(c) => FitsTourCell(c, v)
  }

  /** Column `c` of one tour set to `v`. */
  function SetTourCell(t: Tour, c: TourCol, v: Value): (r: Tour)
    requires FitsTourCell(c, v)
    ensures TourCell(r, c) == v
    ensures forall d :: d != c ==> TourCell(r, d) == TourCell(t, d)
    ensures r.id == t.id && r.createdAt == t.createdAt && r.updatedAt == t.updatedAt
  {
    match c
    case SlugCol => t.(tourSlug := v.text)
    case NameCol => t.(name := v.text)
    case DescriptionCol => t.(description := if v.Text? then Some(v.text) else None)
    case PagePathCol => t.(pagePath := v.text)
    case IsActiveCol => t.(isActive := v.flag)
    case ShadowRgbCol => t.(shadowRgb := v.text)
    case ShadowOpacityCol => t.(shadowOpacity := v.text)
    case InteractCol => t.(interact := v.flag)
    case CardTransitionCol => t.(cardTransition := if v.TransitionSpec? then Some(v.transition) else None)
    case ShowConditionCol => t.(showCondition := v)
    case BgColorCol => t.(bgColor := v.text)
    case TextColorCol => t.(textColor := v.text)
    case FontFamilyCol => t.(fontFamily := v.text)
    case DeviceVisibilityCol => t.(deviceVisibility := ParseDevice(v.text).value)
  }

  /** `SET key = v` on one tour. */
  function SetTourColumn(t: Tour, key: string, v: Value): (r: Tour)
    requires FitsTourColumn(key, v)
    ensures TourColumn(r, key) == v
    ensures forall k :: k != key ==> TourColumn(r, k) == TourColumn(t, k)
    ensures r.id == t.id && r.createdAt == t.createdAt && r.updatedAt == t.updatedAt
  {
    SetTourCell(t, TourColNamed(key).value, v)
  }

  /** A tour is its identity, its timestamps and its updatable columns: nothing else is stored. */
  lemma TourDeterminedByColumns(a: Tour, b: Tour)
    requires a.id == b.id && a.createdAt == b.createdAt && a.updatedAt == b.updatedAt
    requires forall k :: k in TourKeys ==> TourColumn(a, k) == TourColumn(b, k)
    ensures a == b
  {
    forall c
      ensures TourCell(a, c) == TourCell(b, c)
    {
      TourColNamedByName(c);
      assert TourColumn(a, TourColName(c)) == TourColumn(b, TourColName(c));
    }
    TourCellsDetermine(a, b);
  }

  /** Two tours that agree on identity, timestamps and every column are equal. */
  lemma TourCellsDetermine(a: Tour, b: Tour)
    requires a.id == b.id && a.createdAt == b.createdAt && a.updatedAt == b.updatedAt
    requires forall c :: TourCell(a, c) == TourCell(b, c)
    ensures a == b
  {
    assert TourCell(a, SlugCol) == TourCell(b, SlugCol);
    assert TourCell(a, NameCol) == TourCell(b, NameCol);
    assert TourCell(a, DescriptionCol) == TourCell(b, DescriptionCol);
    assert TourCell(a, PagePathCol) == TourCell(b, PagePathCol);
    assert TourCell(a, IsActiveCol) == TourCell(b, IsActiveCol);
    assert TourCell(a, ShadowRgbCol) == TourCell(b, ShadowRgbCol);
    assert TourCell(a, ShadowOpacityCol) == TourCell(b, ShadowOpacityCol);
    assert TourCell(a, InteractCol) == TourCell(b, InteractCol);
    assert TourCell(a, CardTransitionCol) == TourCell(b, CardTransitionCol);
    assert TourCell(a, ShowConditionCol) == TourCell(b, ShowConditionCol);
    assert TourCell(a, BgColorCol) == TourCell(b, BgColorCol);
    assert TourCell(a, TextColorCol) == TourCell(b, TextColorCol);
    assert TourCell(a, FontFamilyCol) == TourCell(b, FontFamilyCol);
    assert TourCell(a, DeviceVisibilityCol) == TourCell(b, DeviceVisibilityCol);
  }

  predicate AllFitTour(fields: seq<Entry>)
  {
    forall e :: e in fields ==> FitsTourColumn(e.key, e.value)
  }

  /** The `SET` list applied to one tour, left to right. */
  function PatchTour(t: Tour, fields: seq<Entry>): (r: Tour)
    requires AllFitTour(fields)
    ensures r.id == t.id && r.createdAt == t.createdAt && r.updatedAt == t.updatedAt
    ensures forall k :: !HasKey(fields, k) ==> TourColumn(r, k) == TourColumn(t, k)
    decreases |fields|
  {
    if fields == [] then t
    else
      var init, last := fields[..|fields| - 1], fields[|fields| - 1];
      assert forall e :: e in init ==> e in fields;
      assert last in fields;
      SetTourColumn(PatchTour(t, init), last.key, last.value)
  }

  /** With distinct keys, every named column holds its new value and every other column its old one. */
  lemma {:induction false} PatchTourColumns(t: Tour, fields: seq<Entry>)
    requires AllFitTour(fields)
    requires DistinctKeys(fields)
    ensures forall e :: e in fields ==> TourColumn(PatchTour(t, fields), e.key) == e.value
    ensures forall k :: !HasKey(fields, k) ==> TourColumn(PatchTour(t, fields), k) == TourColumn(t, k)
    ensures var r := PatchTour(t, fields); r.id == t.id && r.createdAt == t.createdAt && r.updatedAt == t.updatedAt
  {
    if fields != [] {
      var init, last := fields[..|fields| - 1], fields[|fields| - 1];
      LastEntry(fields);
      PatchTourColumns(t, init);
      SetLastTourColumn(t, PatchTour(t, init), init, last);
    }
  }

  /** The inductive step of `PatchTourColumns`: one more `SET` with a new key. */
  lemma SetLastTourColumn(t: Tour, r0: Tour, init: seq<Entry>, last: Entry)
    requires FitsTourColumn(last.key, last.value)
    requires forall e :: e in init ==> e.key != last.key
    requires forall e :: e in init ==> TourColumn(r0, e.key) == e.value
    requires forall k :: !HasKey(init, k) ==> TourColumn(r0, k) == TourColumn(t, k)
    ensures var r := SetTourColumn(r0, last.key, last.value);
      && (forall e :: e in init + [last] ==> TourColumn(r, e.key) == e.value)
      && (forall k :: !HasKey(init + [last], k) ==> TourColumn(r, k) == TourColumn(t, k))
  {
    var r := SetTourColumn(r0, last.key, last.value);
    forall k | !HasKey(init + [last], k)
      ensures TourColumn(r, k) == TourColumn(t, k)
    {
      assert last in init + [last];
    }
  }

  /** Splitting the last entry off a payload with distinct keys. */
  lemma LastEntry(fields: seq<Entry>)
    requires fields != []
    requires DistinctKeys(fields)
    ensures var init, last := fields[..|fields| - 1], fields[|fields| - 1];
      && fields == init + [last]
      && DistinctKeys(init)
      && (forall e :: e in init ==> e in fields && e.key != last.key)
  {
    var init, last := fields[..|fields| - 1], fields[|fields| - 1];
    assert fields == init + [last];
    forall e | e in init
      ensures e.key != last.key
    {
      var m :| 0 <= m < |init| && init[m] == e;
      assert fields[m] == e;
    }
    assert DistinctKeys(init) by {
      forall i, j | 0 <= i < j < |init| ensures init[i].key != init[j].key {
        assert init[i] == fields[i] && init[j] == fields[j];
      }
    }
  }

  // ---------------------------------------------------------------
  // steps
  // ---------------------------------------------------------------

  /** The updatable columns of `steps`. */
  datatype StepCol =
    | TitleCol | ContentCol | IconCol | SelectorCol | SideCol | ShowControlsCol
    | PointerPaddingCol | PointerRadiusCol | NextRouteCol | PrevRouteCol | TranslationsCol

  /** The column's name in the table. */
  function StepColName(c: StepCol): (r: string)
    ensures r in StepKeys
  {
    match c
    case TitleCol => "title"
    case ContentCol => "content"
    case IconCol => "icon"
    case SelectorCol => "selector"
    case SideCol => "side"
    case ShowControlsCol => "show_controls"
    case PointerPaddingCol => "pointer_padding"
    case PointerRadiusCol => "pointer_radius"
    case NextRouteCol => "next_route"
    case PrevRouteCol => "prev_route"
    case TranslationsCol => "translations"
  }

  /** The step column a key names, if it names one. */
  function StepColNamed(key: string): (r: Option<StepCol>)
    ensures r.Some? ==> StepColName(r.value) == key
  {
    if key == "title" then Some(TitleCol)
    else if key == "content" then Some(ContentCol)
    else if key == "icon" then Some(IconCol)
    else if key == "selector" then Some(SelectorCol)
    else if key == "side" then Some(SideCol)
    else if key == "show_controls" then Some(ShowControlsCol)
    else if key == "pointer_padding" then Some(PointerPaddingCol)
    else if key == "pointer_radius" then Some(PointerRadiusCol)
    else if key == "next_route" then Some(NextRouteCol)
    else if key == "prev_route" then Some(PrevRouteCol)
    else if key == "translations" then Some(TranslationsCol)
    else None
  }

  /** Every step column is found by its name. */
  lemma StepColNamedByName(c: StepCol)
    ensures StepColNamed(StepColName(c)) == Some(c)
  {
  }

  /** A step's column `c`, as the value an update would write there. */
  function StepCell(s: Step, c: StepCol): Value
  {
    match c
    case TitleCol => Text(s.title)
    case ContentCol => Text(s.content)
    case IconCol => OptText(s.icon)
    case SelectorCol => Text(s.selector)
    case SideCol => Text(s.side)
    case ShowControlsCol => Flag(s.showControls)
    case PointerPaddingCol => Number(s.pointerPadding)
    case PointerRadiusCol => Number(s.pointerRadius)
    case NextRouteCol => OptText(s.nextRoute)
    case PrevRouteCol => OptText(s.prevRoute)
    case TranslationsCol => if s.translations.Some? then TranslationMap(s.translations.value) else Null
  }

  /** A step's column `key`; a key that names no column reads as `NULL`. */
  function StepColumn(s: Step, key: string): Value
  {
    match StepColNamed(key)
    case None => Null
    case Some(c) => StepCell(s, c)
  }

  /** The database accepts `v` in step column `c`. */
  predicate FitsStepCell(c: StepCol, v: Value)
  {
    match c
    case IconCol => v.Text? || v.Null?
    case NextRouteCol => v.Text? || v.Null?
    case PrevRouteCol => v.Text? || v.Null?
    case ShowControlsCol => v.Flag?
    case PointerPaddingCol => v.Number?
    case PointerRadiusCol => v.Number?
    case TranslationsCol => v.TranslationMap? || v.Null?
    case _ => v.Text?
  }

  predicate FitsStepColumn(key: string, v: Value)
  {
    match StepColNamed(key)
    case None => false
    case Some(c) => FitsStepCell(c, v)
  }

  /** Column `c` of one step set to `v`. */
  function SetStepCell(s: Step, c: StepCol, v: Value): (r: Step)
    requires FitsStepCell(c, v)
    ensures StepCell(r, c) == v
    ensures forall d :: d != c ==> StepCell(r, d) == StepCell(s, d)
    ensures r.id == s.id && r.tourId == s.tourId && r.orderIndex == s.orderIndex
    ensures r.createdAt == s.createdAt && r.updatedAt == s.updatedAt
  {
    match c
    case TitleCol => s.(title := v.text)
    case ContentCol => s.(content := v.text)
    case IconCol => s.(icon := if v.Text? then Some(v.text) else None)
    case SelectorCol => s.(selector := v.text)
    case SideCol => s.(side := v.text)
    case ShowControlsCol => s.(showControls := v.flag)
    case PointerPaddingCol => s.(pointerPadding := v.number)
    case PointerRadiusCol => s.(pointerRadius := v.number)
    case NextRouteCol => s.(nextRoute := if v.Text? then Some(v.text) else None)
    case PrevRouteCol => s.(prevRoute := if v.Text? then Some(v.text) else None)
    case TranslationsCol => s.(translations := if v.TranslationMap? then Some(v.translations) else None)
  }

  /** `SET key = v` on one step. */
  function SetStepColumn(s: Step, key: string, v: Value): (r: Step)
    requires FitsStepColumn(key, v)
    ensures StepColumn(r, key) == v
    ensures forall k :: k != key ==> StepColumn(r, k) == StepColumn(s, k)
    ensures r.id == s.id && r.tourId == s.tourId && r.orderIndex == s.orderIndex
    ensures r.createdAt == s.createdAt && r.updatedAt == s.updatedAt
  {
    SetStepCell(s, StepColNamed(key).value, v)
  }

  /** A step is its identity, owner, position, timestamps and updatable columns. */
  lemma StepDeterminedByColumns(a: Step, b: Step)
    requires a.id == b.id && a.tourId == b.tourId && a.orderIndex == b.orderIndex
    requires a.createdAt == b.createdAt && a.updatedAt == b.updatedAt
    requires forall k :: k in StepKeys ==> StepColumn(a, k) == StepColumn(b, k)
    ensures a == b
  {
    forall c
      ensures StepCell(a, c) == StepCell(b, c)
    {
      StepColNamedByName(c);
      assert StepColumn(a, StepColName(c)) == StepColumn(b, StepColName(c));
    }
    assert StepCell(a, TitleCol) == StepCell(b, TitleCol);
    assert StepCell(a, ContentCol) == StepCell(b, ContentCol);
    assert StepCell(a, IconCol) == StepCell(b, IconCol);
    assert StepCell(a, SelectorCol) == StepCell(b, SelectorCol);
    assert StepCell(a, SideCol) == StepCell(b, SideCol);
    assert StepCell(a, ShowControlsCol) == StepCell(b, ShowControlsCol);
    assert StepCell(a, PointerPaddingCol) == StepCell(b, PointerPaddingCol);
    assert StepCell(a, PointerRadiusCol) == StepCell(b, PointerRadiusCol);
    assert StepCell(a, NextRouteCol) == StepCell(b, NextRouteCol);
    assert StepCell(a, PrevRouteCol) == StepCell(b, PrevRouteCol);
    assert StepCell(a, TranslationsCol) == StepCell(b, TranslationsCol);
  }

  predicate AllFitStep(fields: seq<Entry>)
  {
    forall e :: e in fields ==> FitsStepColumn(e.key, e.value)
  }

  /** The `SET` list applied to one step, left to right. A patch never moves a step (identity,
      owner, position and timestamps stay), and a column the patch does not name keeps its value. */
  function PatchStep(s: Step, fields: seq<Entry>): (r: Step)
    requires AllFitStep(fields)
    ensures r.id == s.id && r.tourId == s.tourId && r.orderIndex == s.orderIndex
    ensures r.createdAt == s.createdAt && r.updatedAt == s.updatedAt
    ensures forall k :: !HasKey(fields, k) ==> StepColumn(r, k) == StepColumn(s, k)
    decreases |fields|
  {
    if fields == [] then s
    else
      var init, last := fields[..|fields| - 1], fields[|fields| - 1];
      assert forall e :: e in init ==> e in fields;
      assert last in fields;
      SetStepColumn(PatchStep(s, init), last.key, last.value)
  }

  /** With distinct keys, every named column holds its new value and every other column its old one. */
  lemma {:induction false} PatchStepColumns(s: Step, fields: seq<Entry>)
    requires AllFitStep(fields)
    requires DistinctKeys(fields)
    ensures forall e :: e in fields ==> StepColumn(PatchStep(s, fields), e.key) == e.value
    ensures forall k :: !HasKey(fields, k) ==> StepColumn(PatchStep(s, fields), k) == StepColumn(s, k)
  {
    if fields != [] {
      var init, last := fields[..|fields| - 1], fields[|fields| - 1];
      LastEntry(fields);
      PatchStepColumns(s, init);
      SetLastStepColumn(s, PatchStep(s, init), init, last);
    }
  }

  /** The inductive step of `PatchStepColumns`: one more `SET` with a new key. */
  lemma SetLastStepColumn(s: Step, r0: Step, init: seq<Entry>, last: Entry)
    requires FitsStepColumn(last.key, last.value)
    requires forall e :: e in init ==> e.key != last.key
    requires forall e :: e in init ==> StepColumn(r0, e.key) == e.value
    requires forall k :: !HasKey(init, k) ==> StepColumn(r0, k) == StepColumn(s, k)
    ensures var r := SetStepColumn(r0, last.key, last.value);
      && (forall e :: e in init + [last] ==> StepColumn(r, e.key) == e.value)
      && (forall k :: !HasKey(init + [last], k) ==> StepColumn(r, k) == StepColumn(s, k))
  {
    var r := SetStepColumn(r0, last.key, last.value);
    forall k | !HasKey(init + [last], k)
      ensures StepColumn(r, k) == StepColumn(s, k)
    {
      assert last in init + [last];
    }
  }
}
