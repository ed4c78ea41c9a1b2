/** Converting between the operator's record of an application and the SDK's, where ids and tags are
    narrower, everything is optional twice over, and the sync level is an enumeration. */
module ProwlarrConvert {
  import opened Common
  import opened Json
  import opened ProwlarrTypes

  datatype SyncLevel = Disabled | AddOnly | FullSync {
    function Name(): string {
      match this
      case Disabled => "disabled"
      case AddOnly => "addOnly"
      case FullSync => "fullSync"
    }
  }

  /** An absent property and a property that is null are different. */
  type Nullable<T> = Option<Option<T>>

  datatype SdkField = SdkField(name: Nullable<string>, value: Nullable<Value>)

  datatype ApplicationResource = ApplicationResource(
    id: Option<int>,
    name: Nullable<string>,
    syncLevel: Option<SyncLevel>,
    implementation: Nullable<string>,
    configContract: Nullable<string>,
    fields: Nullable<seq<SdkField>>,
    tags: Nullable<seq<int>>)

  const I32_RANGE := 0x1_0000_0000
  const I32_HALF := 0x8000_0000

  predicate FitsI32(n: int) {
    -I32_HALF <= n < I32_HALF
  }

  /** A 64-bit integer cast to 32 bits wraps around. */
  function AsI32(n: int): (r: int)
    ensures FitsI32(r) && (r - n) % I32_RANGE == 0
    ensures FitsI32(n) ==> r == n
  {
    (n + I32_HALF) % I32_RANGE - I32_HALF
  }

  function OrElse<T>(v: Nullable<T>, default: T): T {
    if v.Some? && v.value.Some? then v.value.value else default
  }

  function FieldsFromSdk(fields: seq<SdkField>): seq<ProwlarrAppField> {
    if fields == [] then []
    else
      var rest := FieldsFromSdk(fields[1..]);
      var f := fields[0];
      if f.name.None? || OrElse(f.name, "") == "" then rest
      else [ProwlarrAppField(OrElse(f.name, ""), OrElse(f.value, Null))] + rest
  }

  function SdkToApp(r: ApplicationResource): ProwlarrApp {
    ProwlarrApp(
      if r.id.Some? then r.id.value else 0,
      OrElse(r.name, ""),
      if r.syncLevel.Some? then r.syncLevel.value.Name() else "",
      OrElse(r.implementation, ""),
      OrElse(r.configContract, ""),
      FieldsFromSdk(OrElse(r.fields, [])),
      OrElse(r.tags, []))
  }

  function FieldsToSdk(fields: seq<ProwlarrAppField>): seq<SdkField> {
    if fields == [] then []
    else [SdkField(Some(Some(fields[0].name)), Some(Some(fields[0].value)))] + FieldsToSdk(fields[1..])
  }

  function TagsToSdk(tags: seq<int>): seq<int> {
    if tags == [] then [] else [AsI32(tags[0])] + TagsToSdk(tags[1..])
  }

  function LevelOf(name: string): SyncLevel {
    match name
    case "disabled" => Disabled
    case "addOnly" => AddOnly
    case "fullSync" => FullSync
    case _ => FullSync
  }

  function AppToSdk(app: ProwlarrApp): ApplicationResource {
    ApplicationResource(
      if app.id != 0 then Some(AsI32(app.id)) else None,
      Some(Some(app.name)),
      Some(LevelOf(app.syncLevel)),
      Some(Some(app.implementation)),
      Some(Some(app.configContract)),
      Some(Some(FieldsToSdk(app.fields))),
      Some(Some(TagsToSdk(app.tags))))
  }

  // ---- Round trips ----

  /** What one trip through the SDK does to an application. */
  function RoundTrip(app: ProwlarrApp): ProwlarrApp {
    SdkToApp(AppToSdk(app))
  }

  ghost predicate Canonical(app: ProwlarrApp) {
    && FitsI32(app.id)
    && (forall t :: t in app.tags ==> FitsI32(t))
    && (forall f :: f in app.fields ==> f.name != "")
    && app.syncLevel in {"disabled", "addOnly", "fullSync"}
  }

  function Named(fields: seq<ProwlarrAppField>): seq<ProwlarrAppField> {
    if fields == [] then []
    else if fields[0].name == "" then Named(fields[1..])
    else [fields[0]] + Named(fields[1..])
  }

  lemma {:induction false} FieldsRoundTrip(fields: seq<ProwlarrAppField>)
    ensures FieldsFromSdk(FieldsToSdk(fields)) == Named(fields)
  {
    if fields != [] {
      var sdk := FieldsToSdk(fields);
      assert sdk[1..] == FieldsToSdk(fields[1..]);
      FieldsRoundTrip(fields[1..]);
    }
  }

  lemma {:induction false} NamedIffAllNamed(fields: seq<ProwlarrAppField>)
    ensures |Named(fields)| <= |fields|
    ensures forall f :: f in Named(fields) ==> f in fields && f.name != ""
    ensures Named(fields) == fields <==> forall f :: f in fields ==> f.name != ""
  {
    if fields != [] {
      NamedIffAllNamed(fields[1..]);
      assert fields == [fields[0]] + fields[1..];
      assert fields[0] in fields;
      if fields[0].name != "" {
        assert Named(fields)[1..] == Named(fields[1..]);
      }
    }
  }

  lemma {:induction false} TagsKeptIffFit(tags: seq<int>)
    ensures |TagsToSdk(tags)| == |tags|
    ensures forall t :: t in TagsToSdk(tags) ==> FitsI32(t)
    ensures TagsToSdk(tags) == tags <==> forall t :: t in tags ==> FitsI32(t)
  {
    if tags != [] {
      TagsKeptIffFit(tags[1..]);
      assert tags == [tags[0]] + tags[1..];
      assert tags[0] in tags;
      assert TagsToSdk(tags)[0] == AsI32(tags[0]) && TagsToSdk(tags)[1..] == TagsToSdk(tags[1..]);
    }
  }

  /** The trip changes nothing exactly for canonical applications: id and tags fit in 32 bits, every
      field has a name, and the sync level is one of the three known ones. */
  lemma RoundTripIffCanonical(app: ProwlarrApp)
    ensures RoundTrip(app) == app <==> Canonical(app)
  {
    FieldsRoundTrip(app.fields);
    NamedIffAllNamed(app.fields);
    TagsKeptIffFit(app.tags);
  }

  /** For every application, canonical or not, one trip reaches a canonical one. */
  lemma RoundTripIsCanonical(app: ProwlarrApp)
    ensures Canonical(RoundTrip(app))
    ensures RoundTrip(RoundTrip(app)) == RoundTrip(app)
  {
    FieldsRoundTrip(app.fields);
    NamedIffAllNamed(app.fields);
    TagsKeptIffFit(app.tags);
    RoundTripIffCanonical(RoundTrip(app));
  }

  /** An application read from the SDK is canonical, unless the SDK left out the sync level. */
  lemma ReadIsCanonicalIffLevelKnown(r: ApplicationResource)
    requires r.id.Some? ==> FitsI32(r.id.value)
    requires forall t :: t in OrElse(r.tags, []) ==> FitsI32(t)
    ensures Canonical(SdkToApp(r)) <==> r.syncLevel.Some?
  {
    SdkFieldsAreNamed(OrElse(r.fields, []));
  }

  lemma {:induction false} SdkFieldsAreNamed(fields: seq<SdkField>)
    ensures forall f :: f in FieldsFromSdk(fields) ==> f.name != ""
  {
    if fields != [] {
      SdkFieldsAreNamed(fields[1..]);
    }
  }

  // ---- What each side of the conversion keeps ----

  /** What the SDK is given, property by property: a zero id is left out, other ids and the tags are the
      same modulo 2^32, every field keeps its name and value, and an unknown sync level is a full one. */
  lemma {:induction false} SdkIsGiven(app: ProwlarrApp)
    ensures var r := AppToSdk(app);
            && (r.id == None <==> app.id == 0)
            && (r.id.Some? ==> Wrapped(app.id, r.id.value))
            && r.name == Some(Some(app.name))
            && r.implementation == Some(Some(app.implementation))
            && r.configContract == Some(Some(app.configContract))
            && (r.syncLevel == Some(Disabled) <==> app.syncLevel == "disabled")
            && (r.syncLevel == Some(AddOnly) <==> app.syncLevel == "addOnly")
            && r.syncLevel.Some?
            && r.fields.Some? && r.fields.value.Some? && SameFields(app.fields, r.fields.value.value)
            && r.tags.Some? && r.tags.value.Some? && SameTags(app.tags, r.tags.value.value)
  {
    FieldsGiven(app.fields);
    TagsGiven(app.tags);
    AsI32Wraps(app.id);
  }

  /** The 32-bit number that is the same modulo 2^32. */
  ghost predicate Wrapped(n: int, r: int) {
    -0x8000_0000 <= r < 0x8000_0000 && (r - n) % 0x1_0000_0000 == 0
  }

  lemma AsI32Wraps(n: int)
    ensures Wrapped(n, AsI32(n))
  {
  }

  ghost predicate SameFields(fields: seq<ProwlarrAppField>, sdk: seq<SdkField>) {
    |sdk| == |fields| && forall i :: 0 <= i < |fields| ==>
      sdk[i] == SdkField(Some(Some(fields[i].name)), Some(Some(fields[i].value)))
  }

  ghost predicate SameTags(tags: seq<int>, sdk: seq<int>) {
    |sdk| == |tags| && forall i :: 0 <= i < |tags| ==> Wrapped(tags[i], sdk[i])
  }

  lemma {:induction false} FieldsGiven(fields: seq<ProwlarrAppField>)
    ensures SameFields(fields, FieldsToSdk(fields))
  {
    if fields != [] {
      FieldsGiven(fields[1..]);
    }
  }

  lemma {:induction false} TagsGiven(tags: seq<int>)
    ensures SameTags(tags, TagsToSdk(tags))
  {
    if tags != [] {
      TagsGiven(tags[1..]);
      AsI32Wraps(tags[0]);
    }
  }

  /** What is read back: a property that is absent or null reads as empty, an absent id as 0, an absent
      sync level as the empty text. */
  lemma SdkIsRead(r: ApplicationResource)
    ensures var app := SdkToApp(r);
            && app.id == (match r.id case Some(id) => id case None => 0)
            && (r.name == Some(Some(app.name)) || (r.name in {None, Some(None)} && app.name == ""))
            && (r.implementation == Some(Some(app.implementation))
                || (r.implementation in {None, Some(None)} && app.implementation == ""))
            && (r.configContract == Some(Some(app.configContract))
                || (r.configContract in {None, Some(None)} && app.configContract == ""))
            && (r.tags == Some(Some(app.tags)) || (r.tags in {None, Some(None)} && app.tags == []))
            && (r.fields in {None, Some(None)} ==> app.fields == [])
            && app.syncLevel == match r.syncLevel
                                case None => ""
                                case Some(Disabled) => "disabled"
                                case Some(AddOnly) => "addOnly"
                                case Some(FullSync) => "fullSync"
  {
  }

  /** Of the fields read, those with a non-empty name remain, in order; a value that is absent or null
      is null. */
  lemma {:induction false} FieldsRead(fields: seq<SdkField>, f: SdkField)
    ensures FieldsFromSdk(fields + [f])
            == FieldsFromSdk(fields)
               + match f.name
                 case Some(Some(name)) =>
                   if name == "" then []
                   else [ProwlarrAppField(name, match f.value case Some(Some(v)) => v case _ => Null)]
                 case _ => []
    ensures FieldsFromSdk([]) == []
  {
    if fields == [] {
      assert [] + [f] == [f] && [f][1..] == [];
    } else {
      assert (fields + [f])[0] == fields[0] && (fields + [f])[1..] == fields[1..] + [f];
      FieldsRead(fields[1..], f);
    }
  }
}
