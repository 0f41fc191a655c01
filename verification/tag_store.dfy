/**
 * The Vorbis-comment tags of a FLAC file as the tagger sees them: the
 * validity check (`validate_flac_file`), the "already tagged" gate
 * (`has_proper_metadata`) and the full-replace mapping of an inferred
 * metadata record onto tags (`apply_metadata_to_flac`).
 */
module TagStore {
  import opened Wrappers
  import opened Builtins
  import opened FormatSniffer

  /** Tag name to its list of values, as the tag library exposes it. */
  type TagMap = map<string, seq<string>>

  /** The tag library's structural parse of a FLAC file's bytes; `None` when it raises. */
  type Parser = seq<byte> -> Option<TagMap>

  /**
   * `validate_flac_file`: the four-byte marker is checked first and the
   * structural parse only after it; either failing makes the file invalid.
   * `None` contents stand for a file that cannot be opened.
   */
  function ValidateFlac(contents: Option<seq<byte>>, parse: Parser): (r: Option<TagMap>)
    ensures r.Some? <==> FlacHeaderOk(contents) && parse(contents.value).Some?
    ensures r.Some? ==> r == parse(contents.value)
  {
    if !FlacHeaderOk(contents) then None else parse(contents.value)
  }

  /** A file that the sniffer does not call FLAC is never valid, whatever the parser says. */
  lemma ValidRequiresFlacSignature(contents: Option<seq<byte>>, parse: Parser)
    requires DetectFile(contents) != Flac
    ensures ValidateFlac(contents, parse).None?
  {
    FlacHeaderAgreesWithSniffer(contents);
  }

  // ---------------------------------------------------------------------
  // The "already tagged" gate
  // ---------------------------------------------------------------------

  /** The four logical roles the gate asks for. */
  datatype Role = Composer | Work | Title | Artist

  /** The order the roles are checked in, and so the order of the missing list. */
  const RoleOrder: seq<Role> := [Composer, Work, Title, Artist]

  /** Position of a role in `RoleOrder`. */
  function Rank(r: Role): (n: nat)
    ensures n < |RoleOrder| && RoleOrder[n] == r
  {
    match r
    case Composer => 0
    case Work => 1
    case Title => 2
    case Artist => 3
  }

  /** The physical tags that can back each role, in the order they are tried. */
  function BackingKeys(r: Role): seq<string> {
    match r
    case Composer => ["COMPOSER"]
    case Work => ["ALBUM", "WORK"]
    case Title => ["TITLE"]
    case Artist => ["ARTIST", "ALBUMARTIST"]
  }

  /** `tag in audio and audio[tag] and audio[tag][0].strip()`. */
  predicate HasValue(tags: TagMap, key: string) {
    key in tags && |tags[key]| > 0 && Strip(tags[key][0]) != []
  }

  /** A tag whose value list is non-empty and whose first value is not blank. */
  predicate Valued(tags: TagMap, key: string) {
    key in tags && |tags[key]| > 0 && !IsBlank(tags[key][0])
  }

  /** The declarative reading of a role: some backing key is valued. */
  predicate RolePresent(tags: TagMap, r: Role) {
    exists i :: 0 <= i < |BackingKeys(r)| && Valued(tags, BackingKeys(r)[i])
  }

  /** The inner loop of the gate: tries `keys` in order and stops at the first with a value. */
  function AnyKeyHasValue(tags: TagMap, keys: seq<string>): (b: bool)
    ensures b <==> exists i :: 0 <= i < |keys| && HasValue(tags, keys[i])
  {
    if |keys| == 0 then false
    else if HasValue(tags, keys[0]) then true
    else
      assert forall i :: 1 <= i < |keys| ==> keys[i] == keys[1..][i - 1];
      AnyKeyHasValue(tags, keys[1..])
  }

  /** The loop's test and the declarative reading agree. */
  lemma AnyKeyHasValueIffPresent(tags: TagMap, r: Role)
    ensures AnyKeyHasValue(tags, BackingKeys(r)) <==> RolePresent(tags, r)
  {
    var keys := BackingKeys(r);
    forall i | 0 <= i < |keys|
      ensures HasValue(tags, keys[i]) <==> Valued(tags, keys[i])
    {
      if keys[i] in tags && |tags[keys[i]]| > 0 {
        StripEmptyIffBlank(tags[keys[i]][0]);
      }
    }
  }

  /** Roles listed in strictly increasing `RoleOrder` position, so each at most once. */
  predicate Sorted(roles: seq<Role>) {
    forall i, j :: 0 <= i < j < |roles| ==> Rank(roles[i]) < Rank(roles[j])
  }

  /** The outer loop of the gate: the roles of `roles` whose backing keys all lack a value, in order. */
  function MissingRoles(tags: TagMap, roles: seq<Role>): (missing: seq<Role>)
    ensures forall r :: r in missing <==> r in roles && !RolePresent(tags, r)
    ensures |missing| <= |roles|
    ensures Sorted(roles) ==> Sorted(missing)
  {
    if |roles| == 0 then []
    else
      AnyKeyHasValueIffPresent(tags, roles[0]);
      var rest := MissingRoles(tags, roles[1..]);
      assert forall r :: r in roles <==> r == roles[0] || r in roles[1..];
      assert Sorted(roles) ==> forall j :: 0 <= j < |rest| ==> Rank(roles[0]) < Rank(rest[j]) by {
        if Sorted(roles) {
          forall j | 0 <= j < |rest| ensures Rank(roles[0]) < Rank(rest[j]) {
            assert rest[j] in rest;
            var i :| 0 <= i < |roles[1..]| && roles[1..][i] == rest[j];
            assert roles[i + 1] == rest[j];
          }
        }
      }
      if AnyKeyHasValue(tags, BackingKeys(roles[0])) then rest else [roles[0]] + rest
  }

  /** Every role is backed by some non-blank value. */
  predicate Complete(tags: TagMap) {
    forall r :: RolePresent(tags, r)
  }

  /**
   * `has_proper_metadata`: `(true, [])` exactly when every role is present;
   * otherwise `false` with the failing roles, each once, in the order
   * composer, work, title, artist.
   */
  function HasProperMetadata(tags: TagMap): (result: (bool, seq<Role>))
    ensures result.0 <==> Complete(tags)
    ensures result.0 <==> result.1 == []
    ensures forall r :: r in result.1 <==> !RolePresent(tags, r)
    ensures Sorted(result.1)
  {
    forall r: Role ensures r in RoleOrder {
      assert RoleOrder[Rank(r)] == r;
    }
    var missing := MissingRoles(tags, RoleOrder);
    if missing != [] then
      assert missing[0] in missing;
      (false, missing)
    else
      assert forall r :: RolePresent(tags, r) by {
        forall r ensures RolePresent(tags, r) {
          assert r !in missing;
        }
      }
      (true, [])
  }

  // ---------------------------------------------------------------------
  // Writing an inferred record
  // ---------------------------------------------------------------------

  /**
   * The fields of an inferred record the writer looks at. A field is `None`
   * when the record lacks it or holds `null`. Date, disc and track are
   * already strings.
   */
  datatype Metadata = Metadata(
    composer: Option<string>,
    work: Option<string>,
    movement: Option<string>,
    performers: Option<seq<string>>,
    orchestra: Option<string>,
    soloists: Option<seq<string>>,
    date: Option<string>,
    disc: Option<string>,
    track: Option<string>)

  /** Python truthiness of a string field: present and not empty. */
  predicate Given(field: Option<string>) {
    field.Some? && field.value != ""
  }

  /** Python truthiness of a list field: present and not empty. */
  predicate GivenList(field: Option<seq<string>>) {
    field.Some? && field.value != []
  }

  /** The separator the performers are joined with. */
  const PerformerSeparator: string := ", "

  /** The tags the writer can produce, spelled as the program spells them by `KeyName`. */
  datatype FieldKey =
    | COMPOSER | ALBUM | WORK | TITLE | ARTIST | ALBUMARTIST
    | ORCHESTRA | ENSEMBLE | PERFORMER | DATE | DISCNUMBER | TRACKNUMBER

  function KeyName(k: FieldKey): string {
    match k
    case COMPOSER => "COMPOSER"
    case ALBUM => "ALBUM"
    case WORK => "WORK"
    case TITLE => "TITLE"
    case ARTIST => "ARTIST"
    case ALBUMARTIST => "ALBUMARTIST"
    case ORCHESTRA => "ORCHESTRA"
    case ENSEMBLE => "ENSEMBLE"
    case PERFORMER => "PERFORMER"
    case DATE => "DATE"
    case DISCNUMBER => "DISCNUMBER"
    case TRACKNUMBER => "TRACKNUMBER"
  }

  /** Distinct written tags have distinct names. */
  lemma KeyNameInjective(a: FieldKey, b: FieldKey)
    requires KeyName(a) == KeyName(b)
    ensures a == b
  {
    assert |KeyName(a)| == |KeyName(b)|;
    assert KeyName(a)[0] == KeyName(b)[0];
    if |KeyName(a)| > 1 {
      assert KeyName(a)[1] == KeyName(b)[1];
    }
  }

  const AllFieldKeys: set<FieldKey> := {
    COMPOSER, ALBUM, WORK, TITLE, ARTIST, ALBUMARTIST,
    ORCHESTRA, ENSEMBLE, PERFORMER, DATE, DISCNUMBER, TRACKNUMBER
  }

  /** `audio[key] = value` for a string field: stored as a one-element list, and only when the field is truthy. */
  function Single(field: Option<string>): Option<seq<string>> {
    if Given(field) then Some([field.value]) else None
  }

  /**
   * The value each assignment of `apply_metadata_to_flac` gives its key, or
   * `None` when its `if` does not fire. The assignments touch distinct keys,
   * so their order does not matter; the one `elif` (TITLE) is kept.
   */
  function FieldValue(m: Metadata, k: FieldKey): Option<seq<string>> {
    match k
    case COMPOSER => Single(m.composer)
    case ALBUM => Single(m.work)
    case WORK => Single(m.work)
    case TITLE => if Given(m.movement) then Single(m.movement) else Single(m.work)
    case ARTIST => if GivenList(m.performers) then Some([Join(m.performers.value, PerformerSeparator)]) else None
    case ALBUMARTIST => if GivenList(m.performers) then Some([Join(m.performers.value, PerformerSeparator)]) else None
    case ORCHESTRA => Single(m.orchestra)
    case ENSEMBLE => Single(m.orchestra)
    case PERFORMER => if GivenList(m.soloists) then m.soloists else None
    case DATE => Single(m.date)
    case DISCNUMBER => Single(m.disc)
    case TRACKNUMBER => Single(m.track)
  }

  /**
   * No assignment writes an empty list, and only PERFORMER, which takes
   * the soloists as they are, can be written with more than one value.
   */
  lemma FieldValueShape(m: Metadata, k: FieldKey)
    ensures FieldValue(m, k).Some? ==> FieldValue(m, k).value != []
    ensures FieldValue(m, k).Some? && k != PERFORMER ==> |FieldValue(m, k).value| == 1
  {
  }

  /**
   * `apply_metadata_to_flac` up to `save()`: `audio.clear()` then one
   * assignment per key whose `if` fires. The tags the file held before are
   * not read: the result is a full replacement, and it holds no key the
   * writer does not produce.
   */
  function ApplyMetadata(audio: TagMap, m: Metadata): (tags: TagMap)
    ensures forall k :: KeyName(k) in tags <==> FieldValue(m, k).Some?
    ensures forall k :: KeyName(k) in tags ==> tags[KeyName(k)] == FieldValue(m, k).value
    ensures forall s :: s in tags ==> exists k :: KeyName(k) == s
  {
    forall a, b | KeyName(a) == KeyName(b) ensures a == b {
      KeyNameInjective(a, b);
    }
    map k | k in AllFieldKeys && FieldValue(m, k).Some? :: KeyName(k) := FieldValue(m, k).value
  }

  /** No tag is ever written with an empty value list. */
  lemma WrittenValuesNonEmpty(audio: TagMap, m: Metadata)
    ensures forall s :: s in ApplyMetadata(audio, m) ==> ApplyMetadata(audio, m)[s] != []
  {
    var tags := ApplyMetadata(audio, m);
    forall s | s in tags ensures tags[s] != [] {
      var k :| KeyName(k) == s;
      assert tags[KeyName(k)] == FieldValue(m, k).value;
    }
  }

  /** COMPOSER, DATE, DISCNUMBER and TRACKNUMBER hold their field as a single value, and only when it is non-empty. */
  lemma WrittenPlainFields(audio: TagMap, m: Metadata)
    ensures var tags := ApplyMetadata(audio, m);
      && ("COMPOSER" in tags <==> Given(m.composer))
      && (Given(m.composer) ==> tags["COMPOSER"] == [m.composer.value])
      && ("DATE" in tags <==> Given(m.date))
      && (Given(m.date) ==> tags["DATE"] == [m.date.value])
      && ("DISCNUMBER" in tags <==> Given(m.disc))
      && (Given(m.disc) ==> tags["DISCNUMBER"] == [m.disc.value])
      && ("TRACKNUMBER" in tags <==> Given(m.track))
      && (Given(m.track) ==> tags["TRACKNUMBER"] == [m.track.value])
  {
    var tags := ApplyMetadata(audio, m);
    assert KeyName(COMPOSER) in tags <==> Given(m.composer);
    assert KeyName(DATE) in tags <==> Given(m.date);
    assert KeyName(DISCNUMBER) in tags <==> Given(m.disc);
    assert KeyName(TRACKNUMBER) in tags <==> Given(m.track);
  }

  /** ALBUM and WORK both mirror the work. */
  lemma WrittenWorkMirrored(audio: TagMap, m: Metadata)
    ensures var tags := ApplyMetadata(audio, m);
      && ("ALBUM" in tags <==> Given(m.work)) && ("WORK" in tags <==> Given(m.work))
      && (Given(m.work) ==> tags["ALBUM"] == tags["WORK"] == [m.work.value])
  {
    var tags := ApplyMetadata(audio, m);
    assert KeyName(ALBUM) in tags <==> Given(m.work);
    assert KeyName(WORK) in tags <==> Given(m.work);
  }

  /** TITLE takes the movement when there is one and falls back to the work. */
  lemma WrittenTitlePrecedence(audio: TagMap, m: Metadata)
    ensures var tags := ApplyMetadata(audio, m);
      && ("TITLE" in tags <==> Given(m.movement) || Given(m.work))
      && (Given(m.movement) ==> tags["TITLE"] == [m.movement.value])
      && (!Given(m.movement) && Given(m.work) ==> tags["TITLE"] == [m.work.value])
  {
    var tags := ApplyMetadata(audio, m);
    assert KeyName(TITLE) in tags <==> Given(m.movement) || Given(m.work);
  }

  /** ARTIST and ALBUMARTIST both hold the performers joined into one value. */
  lemma WrittenPerformersMirrored(audio: TagMap, m: Metadata)
    ensures var tags := ApplyMetadata(audio, m);
      && ("ARTIST" in tags <==> GivenList(m.performers))
      && ("ALBUMARTIST" in tags <==> GivenList(m.performers))
      && (GivenList(m.performers) ==>
            tags["ARTIST"] == tags["ALBUMARTIST"] == [Join(m.performers.value, PerformerSeparator)])
  {
    var tags := ApplyMetadata(audio, m);
    assert KeyName(ARTIST) in tags <==> GivenList(m.performers);
    assert KeyName(ALBUMARTIST) in tags <==> GivenList(m.performers);
  }

  /** ORCHESTRA and ENSEMBLE both mirror the orchestra. */
  lemma WrittenOrchestraMirrored(audio: TagMap, m: Metadata)
    ensures var tags := ApplyMetadata(audio, m);
      && ("ORCHESTRA" in tags <==> Given(m.orchestra)) && ("ENSEMBLE" in tags <==> Given(m.orchestra))
      && (Given(m.orchestra) ==> tags["ORCHESTRA"] == tags["ENSEMBLE"] == [m.orchestra.value])
  {
    var tags := ApplyMetadata(audio, m);
    assert KeyName(ORCHESTRA) in tags <==> Given(m.orchestra);
    assert KeyName(ENSEMBLE) in tags <==> Given(m.orchestra);
  }

  /** PERFORMER keeps the soloists as separate values, unjoined. */
  lemma WrittenSoloistsKept(audio: TagMap, m: Metadata)
    ensures var tags := ApplyMetadata(audio, m);
      && ("PERFORMER" in tags <==> GivenList(m.soloists))
      && (GivenList(m.soloists) ==> tags["PERFORMER"] == m.soloists.value)
  {
    var tags := ApplyMetadata(audio, m);
    assert KeyName(PERFORMER) in tags <==> GivenList(m.soloists);
  }

  /** Full replace: the tags a file held before the write have no influence on the tags written. */
  lemma ApplyIgnoresPriorTags(a: TagMap, b: TagMap, m: Metadata)
    ensures ApplyMetadata(a, m) == ApplyMetadata(b, m)
  {
  }

  /** Whether a record, once written, backs a role with a non-blank value. */
  predicate Provides(m: Metadata, r: Role) {
    match r
    case Composer => m.composer.Some? && !IsBlank(m.composer.value)
    case Work => m.work.Some? && !IsBlank(m.work.value)
    case Title =>
      if Given(m.movement) then !IsBlank(m.movement.value)
      else m.work.Some? && !IsBlank(m.work.value)
    case Artist =>
      m.performers.Some? &&
      (|m.performers.value| >= 2 || (|m.performers.value| == 1 && !IsBlank(m.performers.value[0])))
  }

  /**
   * The gate applied to freshly written tags: a role is present afterwards
   * exactly when the record provides it. Two or more performers always
   * pass, because the joined value contains the separator.
   */
  lemma {:induction false} WrittenTagsGate(audio: TagMap, m: Metadata, r: Role)
    ensures RolePresent(ApplyMetadata(audio, m), r) <==> Provides(m, r)
  {
    var tags := ApplyMetadata(audio, m);
    var keys := BackingKeys(r);
    match r
    case Composer =>
      ValuedAfterWrite(audio, m, COMPOSER);
      assert keys == [KeyName(COMPOSER)];
      assert RolePresent(tags, r) <==> Valued(tags, keys[0]);
    case Work =>
      WrittenWorkGate(audio, m);
    case Title =>
      ValuedAfterWrite(audio, m, TITLE);
      assert keys == [KeyName(TITLE)];
      assert RolePresent(tags, r) <==> Valued(tags, keys[0]);
    case Artist =>
      WrittenArtistGate(audio, m);
  }

  /** The work role after a write: ALBUM and WORK both carry the work, so either is valued exactly when it is given. */
  lemma {:induction false} WrittenWorkGate(audio: TagMap, m: Metadata)
    ensures RolePresent(ApplyMetadata(audio, m), Work) <==> Provides(m, Work)
  {
    var tags := ApplyMetadata(audio, m);
    ValuedAfterWrite(audio, m, ALBUM);
    ValuedAfterWrite(audio, m, WORK);
    RolePresentTwoKeys(tags, Work);
  }

  /** The artist role after a write: the joined performers are blank only for one blank performer. */
  lemma {:induction false} WrittenArtistGate(audio: TagMap, m: Metadata)
    ensures RolePresent(ApplyMetadata(audio, m), Artist) <==> Provides(m, Artist)
  {
    ArtistKeysAfterWrite(audio, m);
    ArtistFromBackingKeys(ApplyMetadata(audio, m), m);
  }

  /** Both artist keys are valued after a write exactly when the joined performers are non-blank. */
  lemma {:induction false} ArtistKeysAfterWrite(audio: TagMap, m: Metadata)
    ensures Valued(ApplyMetadata(audio, m), "ARTIST") <==> JoinedArtist(m)
    ensures Valued(ApplyMetadata(audio, m), "ALBUMARTIST") <==> JoinedArtist(m)
  {
    ValuedAfterWrite(audio, m, ARTIST);
    ValuedAfterWrite(audio, m, ALBUMARTIST);
  }

  /** Whether the record's performers, joined, give a non-blank artist value. */
  predicate JoinedArtist(m: Metadata) {
    GivenList(m.performers) && !IsBlank(Join(m.performers.value, PerformerSeparator))
  }

  /** Any tag set whose two artist keys are valued exactly when the joined performers are non-blank has the artist role exactly when the record provides it. */
  lemma {:induction false} ArtistFromBackingKeys(tags: TagMap, m: Metadata)
    requires Valued(tags, "ARTIST") <==> JoinedArtist(m)
    requires Valued(tags, "ALBUMARTIST") <==> JoinedArtist(m)
    ensures RolePresent(tags, Artist) <==> Provides(m, Artist)
  {
    RolePresentTwoKeys(tags, Artist);
    JoinedPerformersNonBlank(m);
  }

  /** A role with two backing keys is present exactly when one of the two is valued. */
  lemma RolePresentTwoKeys(tags: TagMap, r: Role)
    requires |BackingKeys(r)| == 2
    ensures RolePresent(tags, r) <==> Valued(tags, BackingKeys(r)[0]) || Valued(tags, BackingKeys(r)[1])
  {
  }

  /** The joined performers are non-blank exactly when the record provides an artist. */
  lemma {:induction false} JoinedPerformersNonBlank(m: Metadata)
    ensures JoinedArtist(m) <==> Provides(m, Artist)
  {
    if m.performers.Some? {
      assert !IsSpace(PerformerSeparator[0]);
      JoinBlankIff(m.performers.value, PerformerSeparator);
    }
  }

  /** One written key is valued exactly when its assignment fired with a non-blank first value. */
  lemma ValuedAfterWrite(audio: TagMap, m: Metadata, k: FieldKey)
    ensures Valued(ApplyMetadata(audio, m), KeyName(k)) <==>
              FieldValue(m, k).Some? && !IsBlank(FieldValue(m, k).value[0])
  {
  }

  /** A record that provides every role leaves the file past the gate, so the next run skips it. */
  lemma WrittenTagsComplete(audio: TagMap, m: Metadata)
    requires forall r :: Provides(m, r)
    ensures HasProperMetadata(ApplyMetadata(audio, m)) == (true, [])
  {
    forall r ensures RolePresent(ApplyMetadata(audio, m), r) {
      WrittenTagsGate(audio, m, r);
    }
  }
}
