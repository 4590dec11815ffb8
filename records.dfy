/** The two persisted records of the tour store (a `tours` row and a `steps` row),
    the loosely typed values a caller may pass in an update, and the store's errors. */
module Records {

  datatype Option<+T> = None | Some(value: T)

  /** What a store operation returns: a value, or the error it throws. */
  datatype Result<+T> = Ok(value: T) | Err(error: StoreError)

  datatype StoreError =
    | NoFieldsToUpdate  // "No fields to update": no allow-listed key in an update
    | TourNotFound      // "Tour not found": the tour to duplicate does not exist
    | Rejected          // the database refuses the statement (NOT NULL, foreign key, column type)

  /** A system-generated row identity. */
  type Id = nat

  datatype Device = All | Desktop | Mobile

  function DeviceName(d: Device): string
  {
    match d
    case All => "all"
    case Desktop => "desktop"
    case Mobile => "mobile"
  }

  function ParseDevice(s: string): (r: Option<Device>)
    ensures r.Some? <==> s in ["all", "desktop", "mobile"]
    ensures r.Some? ==> DeviceName(r.value) == s
  {
    if s == "all" then Some(All)
    else if s == "desktop" then Some(Desktop)
    else if s == "mobile" then Some(Mobile)
    else None
  }

  /** A card transition, kept as structured data. */
  datatype Transition = Transition(kind: string, duration: int)

  /** The card transition used when the page's tour has none: `{type: "spring", duration: 300}`. */
  const DefaultTransition := Transition("spring", 300)

  /** One locale's entry in a step's translation map; either text may be absent. */
  datatype Translation = Translation(title: Option<string>, content: Option<string>)

  /** A loosely typed value, as found in a JSON request body or a JSON column. */
  datatype Value =
    | Null
    | Text(text: string)
    | Flag(flag: bool)
    | Number(number: int)
    | TransitionSpec(transition: Transition)
    | TranslationMap(translations: map<string, Translation>)

  /** A row of `tours`. `tourSlug` is the column `tour_id`, the human-chosen slug. */
  datatype Tour = Tour(
    id: Id,
    tourSlug: string,
    name: string,
    description: Option<string>,
    pagePath: string,
    isActive: bool,
    shadowRgb: string,
    shadowOpacity: string,
    interact: bool,
    cardTransition: Option<Transition>,
    showCondition: Value,
    bgColor: string,
    textColor: string,
    fontFamily: string,
    deviceVisibility: Device,
    createdAt: int,
    updatedAt: int)

  /** A row of `steps`. `tourId` references `Tour.id`. */
  datatype Step = Step(
    id: Id,
    tourId: Id,
    orderIndex: int,
    title: string,
    content: string,
    icon: Option<string>,
    selector: string,
    side: string,
    showControls: bool,
    pointerPadding: int,
    pointerRadius: int,
    nextRoute: Option<string>,
    prevRoute: Option<string>,
    translations: Option<map<string, Translation>>,
    createdAt: int,
    updatedAt: int)

  /** One key of an update payload, in the order `Object.entries` yields it. */
  datatype Entry = Entry(key: string, value: Value)

  /** One pair of a reorder request. */
  datatype OrderUpdate = OrderUpdate(id: Id, orderIndex: int)

  /** The fields a caller may supply to `createTour`; `None` is an absent key. */
  datatype TourDraft = TourDraft(
    tourSlug: Option<string>,
    name: Option<string>,
    description: Option<string>,
    pagePath: Option<string>,
    isActive: Option<bool>,
    shadowRgb: Option<string>,
    shadowOpacity: Option<string>,
    interact: Option<bool>,
    cardTransition: Option<Transition>,
    showCondition: Value,
    bgColor: Option<string>,
    textColor: Option<string>,
    fontFamily: Option<string>,
    deviceVisibility: Option<string>)

  /** The fields a caller may supply to `createStep`; `None` is an absent key. */
  datatype StepDraft = StepDraft(
    title: Option<string>,
    content: Option<string>,
    icon: Option<string>,
    selector: Option<string>,
    side: Option<string>,
    showControls: Option<bool>,
    pointerPadding: Option<int>,
    pointerRadius: Option<int>,
    nextRoute: Option<string>,
    prevRoute: Option<string>,
    translations: Option<map<string, Translation>>)

  /** JavaScript's `x || fallback` on an optional string: absent and "" both fall back. */
  function OrElse(x: Option<string>, fallback: string): (r: string)
    ensures r == fallback || (x.Some? && r == x.value && x.value != "")
  {
    if x.Some? && x.value != "" then x.value else fallback
  }

  /** JavaScript's `x ?? fallback`: only an absent value falls back. */
  function Nullish<T>(x: Option<T>, fallback: T): T
  {
    if x.Some? then x.value else fallback
  }
}
