/**
 * The record types of records.go as schema tables: each struct is a
 * two-letter record tag and its fields' struct tags and Go types, in
 * declaration order. The theorems here apply the row encoder's general
 * properties to these tables.
 */
module Records {
  import opened Wrappers
  import opened Bytes
  import opened Decimal
  import opened Errors
  import opened Descriptor
  import opened FieldWriters
  import opened Encoder

  /** The Go type of a record field. */
  datatype Kind = KCode | KString | KUSPS | KInt | KFloat | KTime | KDuration | KBool

  /** A field declaration: its struct tag and its Go type. */
  datatype Decl =
      /** A tag `sdif:"start=S,len=L"`, or `sdif:"start=S,len=L,code=C"` when the code is not empty. */
      Decl(start: nat, len: nat, code: Bytes, kind: Kind)
      /** A tag under some other key, written out as it stands. */
    | OtherKey(key: Bytes, value: Bytes, kind: Kind)

  /** The struct tag a declaration puts on its field. */
  function TagOf(d: Decl): StructTag
  {
    match d
    case Decl(start, len, code, _) => StructTag(SDIF, Meta(start, len, code))
    case OtherKey(key, value, _) => StructTag(key, value)
  }

  /** A record type: the tag its `ConstTag` returns and its field declarations. */
  datatype Schema = Schema(tag: Bytes, decls: seq<Decl>)

  /** The value has the Go type the kind names. */
  predicate HasKind(k: Kind, v: Value)
  {
    match k
    case KCode => v.Code?
    case KString => v.Str?
    case KUSPS => v.USPS?
    case KInt => v.Int?
    case KFloat => v.Float?
    case KTime => v.Date?
    case KDuration => v.Duration?
    case KBool => v.Bool?
  }

  /** `vs` are the field values of a record of schema `s`. */
  predicate Typed(s: Schema, vs: seq<Value>)
  {
    |vs| == |s.decls| && forall j :: 0 <= j < |vs| ==> HasKind(s.decls[j].kind, vs[j])
  }

  /** The fields the reflection loop visits: each declaration's struct tag with its value. */
  function Fields(ds: seq<Decl>, vs: seq<Value>): (fs: seq<Field>)
    requires |vs| == |ds|
    ensures |fs| == |ds|
    ensures forall j :: 0 <= j < |fs| ==> fs[j] == Field(TagOf(ds[j]), vs[j])
  {
    seq(|ds|, j requires 0 <= j < |ds| => Field(TagOf(ds[j]), vs[j]))
  }

  /** What `encodeRecord` makes of a record of schema `s` with field values `vs`. */
  function Row(s: Schema, vs: seq<Value>, num: NumericText): Result<Bytes, Error>
    requires |vs| == |s.decls|
  {
    EncodeRow(s.tag, Fields(s.decls, vs), Sdif(num))
  }

  /** An `sdif` declaration whose slice lies within bytes 2-159 and whose code is all digits. */
  predicate Inside(d: Decl)
  {
    d.Decl? && 3 <= d.start && 1 <= d.len && d.start + d.len <= 161 && AllDigits(d.code)
  }

  /** Every declaration is an `sdif` one inside the row. */
  predicate AllInside(ds: seq<Decl>)
  {
    forall j :: 0 <= j < |ds| ==> Inside(ds[j])
  }

  /** Every declaration lies inside the row, and each one's slice ends where the next may begin. */
  predicate Laid(ds: seq<Decl>)
  {
    AllInside(ds) && forall j :: 0 < j < |ds| ==> ds[j - 1].start + ds[j - 1].len <= ds[j].start
  }

  /** A two-letter tag and fields laid out in order inside the row. */
  predicate WellFormed(s: Schema)
  {
    |s.tag| == 2 && Laid(s.decls)
  }

  /** Every date field is eight bytes wide, the width of MMDDYYYY. */
  predicate DatesFit(s: Schema)
  {
    forall j :: 0 <= j < |s.decls| && s.decls[j].kind == KTime ==> s.decls[j].Decl? && s.decls[j].len == 8
  }

  /** Byte `i` lies in the slice of some declaration. */
  predicate Covered(ds: seq<Decl>, i: int)
  {
    exists j :: 0 <= j < |ds| && ds[j].Decl? && ds[j].start - 1 <= i < ds[j].start - 1 + ds[j].len
  }

  // ---- From the declarations to the encoder's view ----

  /** The fields of the first `k` declarations are the first `k` fields. */
  lemma FieldsPrefix(ds: seq<Decl>, vs: seq<Value>, k: nat)
    requires |vs| == |ds| && k <= |ds|
    ensures Fields(ds[..k], vs[..k]) == Fields(ds, vs)[..k]
  {
  }

  /** The struct tag of an `sdif` declaration parses back to exactly its start, width and code. */
  lemma DeclLayout(d: Decl, v: Value, num: NumericText)
    requires Inside(d)
    ensures Layout(Sdif(num), Field(TagOf(d), v)) == Ok(SdifTag(d.start, d.len, d.code))
  {
    DigitsHaveNoSeparators(d.code);
    RenderRoundTrip(d.start, d.len, d.code);
    assert Get(TagOf(d), SDIF) == Meta(d.start, d.len, d.code);
  }

  /** In a laid-out list every declaration ends before any later one begins. */
  lemma {:induction false} EndsBefore(ds: seq<Decl>, i: nat, k: nat)
    requires Laid(ds) && i < k < |ds|
    ensures ds[i].start + ds[i].len <= ds[k].start
    decreases k
  {
    if i < k - 1 {
      EndsBefore(ds, i, k - 1);
      assert Inside(ds[k - 1]);
    }
  }

  /**
   * The fields of laid-out declarations have the declared layouts, are
   * pairwise disjoint and lie inside the row, and each one's blank write is
   * the type switch on a blank slice of the declared width.
   */
  lemma LaidFields(ds: seq<Decl>, vs: seq<Value>, num: NumericText)
    requires Laid(ds) && |vs| == |ds|
    ensures var c, fs := Sdif(num), Fields(ds, vs);
      Disjoint(c, fs) &&
      (forall j :: 0 <= j < |fs| ==> Layout(c, fs[j]) == Ok(SdifTag(ds[j].start, ds[j].len, ds[j].code))) &&
      (forall j :: 0 <= j < |fs| ==> InsideRow(c, fs[j])) &&
      (forall j :: 0 <= j < |fs| ==> BlankWrite(c, fs[j]) == WriteValue(Blanks(ds[j].len), vs[j], num))
  {
    var c, fs := Sdif(num), Fields(ds, vs);
    forall j | 0 <= j < |fs|
      ensures Layout(c, fs[j]) == Ok(SdifTag(ds[j].start, ds[j].len, ds[j].code))
      ensures InsideRow(c, fs[j])
      ensures BlankWrite(c, fs[j]) == WriteValue(Blanks(ds[j].len), vs[j], num)
    {
      DeclLayout(ds[j], vs[j], num);
    }
    forall i, k | 0 <= i < k < |fs|
      ensures Apart(c, fs[i], fs[k])
    {
      EndsBefore(ds, i, k);
    }
  }

  // ---- Rows of well-formed schemas ----

  /**
   * A record of a well-formed schema encodes exactly when each field's
   * value fits a blank slice of its declared width.
   */
  lemma SchemaRowSucceeds(s: Schema, vs: seq<Value>, num: NumericText)
    requires WellFormed(s) && |vs| == |s.decls|
    ensures Row(s, vs, num).Ok? <==>
      forall j :: 0 <= j < |vs| ==> WriteValue(Blanks(s.decls[j].len), vs[j], num).Ok?
  {
    LaidFields(s.decls, vs, num);
    TypeSwitchKeepsWidth(num);
    RowSucceeds(s.tag, Fields(s.decls, vs), Sdif(num));
  }

  /** Each field's declared columns of the row hold its value as written into blanks. */
  lemma SchemaColumn(s: Schema, vs: seq<Value>, num: NumericText, j: nat)
    requires WellFormed(s) && |vs| == |s.decls| && Row(s, vs, num).Ok? && j < |vs|
    ensures WriteValue(Blanks(s.decls[j].len), vs[j], num).Ok?
    ensures var d := s.decls[j];
      Row(s, vs, num).value[d.start - 1..d.start - 1 + d.len] == WriteValue(Blanks(d.len), vs[j], num).value
  {
    LaidFields(s.decls, vs, num);
    TypeSwitchKeepsWidth(num);
    RowFieldContent(s.tag, Fields(s.decls, vs), Sdif(num), j);
  }

  /**
   * The row is 162 bytes: the tag in bytes 0-1, a blank in every byte of
   * 2-159 that no field declares, and the letters `r` `n` at the end.
   */
  lemma SchemaRowShape(s: Schema, vs: seq<Value>, num: NumericText, i: nat)
    requires WellFormed(s) && |vs| == |s.decls| && Row(s, vs, num).Ok? && i < 160 && (i < 2 || !Covered(s.decls, i))
    ensures |Row(s, vs, num).value| == ROW_LEN
    ensures Row(s, vs, num).value[i] == if i < 2 then s.tag[i] else BLANK
    ensures Row(s, vs, num).value[160] == 'r' && Row(s, vs, num).value[161] == 'n'
  {
    var c, fs := Sdif(num), Fields(s.decls, vs);
    LaidFields(s.decls, vs, num);
    TypeSwitchKeepsWidth(num);
    forall j | 0 <= j < |fs|
      ensures !InRange(c, fs[j], i)
    {
      assert Inside(s.decls[j]);
    }
    RowUnwrittenBytes(s.tag, fs, c, i);
    RowShape(s.tag, fs, c);
  }

  /** Bool and `time.Duration` fields match no case of the type switch: their columns stay blank. */
  lemma UnwrittenColumns(s: Schema, vs: seq<Value>, num: NumericText, j: nat)
    requires WellFormed(s) && Typed(s, vs) && Row(s, vs, num).Ok? && j < |vs|
    requires s.decls[j].kind == KBool || s.decls[j].kind == KDuration
    ensures var d := s.decls[j]; Row(s, vs, num).value[d.start - 1..d.start - 1 + d.len] == Blanks(d.len)
  {
    SchemaColumn(s, vs, num, j);
    var d := s.decls[j];
    assert HasKind(d.kind, vs[j]);
    assert WriteValue(Blanks(d.len), vs[j], num) == Ok(Blanks(d.len));
  }

  /** In a schema whose date fields are eight bytes wide, a date's columns hold its MMDDYYYY text. */
  lemma DateColumns(s: Schema, vs: seq<Value>, num: NumericText, j: nat)
    requires WellFormed(s) && DatesFit(s) && |vs| == |s.decls| && Row(s, vs, num).Ok? && j < |vs|
    requires s.decls[j].kind == KTime && vs[j].Date?
    ensures var d := s.decls[j]; Row(s, vs, num).value[d.start - 1..d.start - 1 + d.len] == DateText(vs[j].t)
  {
    SchemaColumn(s, vs, num, j);
    var d := s.decls[j];
    assert d.len == 8;
    assert WriteValue(Blanks(8), vs[j], num) == DateField(Blanks(8), vs[j].t);
    DateFieldContract(Blanks(8), vs[j].t);
  }

  // ---- The record types ----

  /** `MeetHostRecord`, tag B2: the meet host's contact details. */
  const MeetHostRecord: Schema := Schema("B2", [
    Decl(3, 1, "001", KCode),  // OrgCode
    Decl(12, 30, "", KString),  // HostName
    Decl(42, 22, "", KString),  // AddrLineOne
    Decl(64, 22, "", KString),  // AddrLineTwo
    Decl(86, 20, "", KString),  // City
    Decl(106, 2, "", KUSPS),  // State
    Decl(108, 10, "", KString),  // PostalCode
    Decl(118, 3, "004", KCode),  // Country
    Decl(121, 12, "", KString)   // Phone
  ])

  /** `TeamIdRecord`, tag C1: a team's name, code and address. */
  const TeamIdRecord: Schema := Schema("C1", [
    Decl(3, 1, "001", KCode),  // OrgCode
    Decl(12, 6, "006", KCode),  // TeamCode
    Decl(18, 30, "", KString),  // FullTeamName
    Decl(48, 16, "", KString),  // AbbrvTeamName
    Decl(64, 22, "", KString),  // AddrLineOne
    Decl(86, 22, "", KString),  // AddrLineTwo
    Decl(108, 20, "", KString),  // City
    Decl(128, 2, "", KUSPS),  // State
    Decl(130, 10, "", KString),  // PostalCode
    Decl(140, 3, "004", KCode),  // Country
    Decl(143, 1, "007", KCode),  // REGION
    Decl(150, 1, "", KString)   // OptTeamCodeChar
  ])

  /** `TeamEntryRecord`, tag C2: a team's coach and entry counts. */
  const TeamEntryRecord: Schema := Schema("C2", [
    Decl(3, 1, "001", KCode),  // OrgCode
    Decl(12, 6, "006", KCode),  // TeamCode
    Decl(18, 30, "", KString),  // CoachName
    Decl(48, 12, "", KString),  // CoachPhone
    Decl(60, 6, "", KInt),  // NumEntries
    Decl(66, 6, "", KInt),  // NumAthletes
    Decl(72, 5, "", KInt),  // NumRelays
    Decl(77, 6, "", KInt),  // NumRelaySwimmers
    Decl(83, 6, "", KInt),  // NumRelaySplits
    Decl(89, 16, "", KString),  // ShortTeamName
    Decl(150, 1, "", KString)   // OptTeamCodeChar
  ])

  /** `IndividualEventRecord`, tag D0: one swim of one athlete. */
  const IndividualEventRecord: Schema := Schema("D0", [
    Decl(3, 1, "001", KCode),  // OrgCode
    Decl(12, 28, "", KString),  // SwimmerName
    Decl(40, 12, "", KString),  // USS
    Decl(52, 1, "016", KCode),  // AttachCode
    Decl(53, 3, "009", KCode),  // CitizenCode
    Decl(56, 8, "", KTime),  // SwimmerDOB
    Decl(64, 2, "", KString),  // SwimmerAge
    Decl(66, 1, "010", KCode),  // SexCode
    Decl(67, 1, "011", KCode),  // EventCode
    Decl(68, 4, "", KInt),  // EventDistance
    Decl(72, 1, "012", KCode),  // StrokeCode
    Decl(77, 4, "025", KCode),  // EventAgeCode
    Decl(81, 8, "", KTime),  // DateOfSwim
    Decl(89, 8, "", KDuration),  // SeedTime
    Decl(97, 1, "013", KCode),  // SeedCourseCode
    Decl(98, 8, "", KDuration),  // PrelimTime
    Decl(106, 1, "013", KCode),  // PrelimCourseCode
    Decl(107, 8, "", KDuration),  // SwimOffTime
    Decl(115, 1, "013", KCode),  // SwimOffCourseCode
    Decl(116, 8, "", KDuration),  // FinalsTime
    Decl(124, 1, "013", KCode),  // FinalsCourseCode
    Decl(125, 2, "", KInt),  // PrelimHeat
    Decl(127, 2, "", KInt),  // PrelimLane
    Decl(129, 2, "", KInt),  // FinalsHeat
    Decl(131, 2, "", KInt),  // FinalsLane
    Decl(133, 3, "", KInt),  // PrelimRanking
    Decl(136, 3, "", KInt),  // FinalsRanking
    Decl(139, 4, "", KFloat),  // FinalsPointsScored
    Decl(143, 2, "014", KCode),  // EventTimeClassCode
    Decl(145, 1, "", KString)   // SwimmerFlightStatus
  ])

  /** `IndividualContactRecord`, tag D2: an athlete's mailing details. */
  const IndividualContactRecord: Schema := Schema("D2", [
    Decl(3, 1, "001", KCode),  // OrgCode
    Decl(12, 6, "006", KCode),  // TeamCode
    Decl(18, 1, "", KString),  // OptTeamCodeChar
    Decl(19, 28, "", KString),  // SwimmerName
    Decl(47, 30, "", KString),  // AltMailingName
    Decl(77, 30, "", KString),  // MailingAddrSt
    Decl(107, 20, "", KString),  // MailingCity
    Decl(127, 2, "", KUSPS),  // MailingState
    Decl(129, 12, "", KString),  // MailingCountry
    Decl(141, 10, "", KString),  // PostalCode
    Decl(151, 3, "004", KCode),  // CountryCode
    Decl(154, 1, "007", KCode),  // ReigonCode
    Decl(155, 1, "023", KCode),  // AnswerCode
    Decl(156, 1, "022", KCode)   // SeasonCode
  ])

  /** `IndividualInfoRecord`, tag D3: an athlete's USS number, preferred name and affiliations; the YMCA/YWCA field's tag uses the key `SDIF`. */
  const IndividualInfoRecord: Schema := Schema("D3", [
    Decl(3, 14, "", KString),  // USS
    Decl(17, 15, "", KString),  // PrefFirstName
    Decl(32, 2, "026", KCode),  // EthnicityCode
    Decl(34, 1, "", KBool),  // JuniorHighSchool
    Decl(35, 1, "", KBool),  // SeniorHighSchool
    OtherKey("SDIF", "START=36,LEN=1", KBool),  // YMCAOrYWCA
    Decl(37, 1, "", KBool),  // College
    Decl(38, 1, "", KBool),  // ParkandRec
    Decl(39, 1, "", KBool),  // SummerLeague
    Decl(40, 1, "", KBool),  // CountryClub
    Decl(41, 1, "", KBool),  // Masters
    Decl(42, 1, "", KBool),  // DisabledSportsOrgs
    Decl(43, 1, "", KBool)   // WaterPolo
  ])

  /** `RelayEventRecord`, tag E0: one relay entry. */
  const RelayEventRecord: Schema := Schema("E0", [
    Decl(3, 1, "001", KCode),  // OrgCode
    Decl(12, 1, "", KString),  // RelayTeamName
    Decl(13, 6, "006", KCode),  // TeamCode
    Decl(19, 2, "", KInt),  // NumRelayNameRecs
    Decl(21, 1, "011", KCode),  // SexCode
    Decl(22, 4, "", KInt),  // RelayDistance
    Decl(26, 1, "012", KCode),  // StrokeCode
    Decl(31, 4, "025", KCode),  // EventAgeCode
    Decl(35, 3, "", KInt),  // AthletesTotalAge
    Decl(38, 8, "", KTime),  // DateOfSwim
    Decl(46, 8, "", KDuration),  // SeedTime
    Decl(54, 1, "013", KCode),  // SeedCourseCode
    Decl(55, 8, "", KDuration),  // PrelimTime
    Decl(63, 1, "013", KCode),  // PrelimCourseCode
    Decl(64, 8, "", KDuration),  // SwimOffTime
    Decl(72, 1, "013", KCode),  // SwimOffCourseCode
    Decl(73, 8, "", KDuration),  // FinalsTime
    Decl(81, 1, "013", KCode),  // FinalsCourseCode
    Decl(82, 2, "", KInt),  // PrelimHeat
    Decl(84, 2, "", KInt),  // PrelimLane
    Decl(86, 2, "", KInt),  // FinalsHeat
    Decl(88, 2, "", KInt),  // FinalsLane
    Decl(90, 3, "", KInt),  // PrelimRanking
    Decl(93, 3, "", KInt),  // FinalsRanking
    Decl(96, 4, "", KFloat),  // FinalsPointsScored
    Decl(100, 2, "014", KCode)   // EventTimeClassCode
  ])

  /** `RelayNameRecord`, tag F0: one relay swimmer; the leg course code is `13`, not `013`. */
  const RelayNameRecord: Schema := Schema("F0", [
    Decl(3, 1, "001", KCode),  // OrgCode
    Decl(16, 6, "006", KCode),  // TeamCode
    Decl(22, 1, "", KString),  // RelayTeamName
    Decl(23, 28, "", KString),  // SwimmerName
    Decl(51, 12, "", KString),  // USS
    Decl(63, 3, "009", KCode),  // CitizenCode
    Decl(66, 8, "", KTime),  // SwimmerDOB
    Decl(74, 2, "", KString),  // SwimmerAge
    Decl(76, 1, "010", KCode),  // SexCode
    Decl(77, 1, "024", KCode),  // PrelimLegOrderCode
    Decl(78, 1, "024", KCode),  // SwimOffLegOrderCode
    Decl(79, 1, "024", KCode),  // FinalsLegOrderCode
    Decl(80, 8, "", KDuration),  // LegTime
    Decl(88, 1, "13", KCode),  // LegCourseCode
    Decl(89, 4, "", KFloat)   // AutoTakeOffTime
  ])

  /** `FileTerminatorRecord`, tag Z0: no fields. */
  const FileTerminatorRecord: Schema := Schema("Z0", [])

  /** `FileDescriptionRecord`, tag A0: the file and the software that wrote it; the file code has no code table. */
  const FileDescriptionRecord: Schema := Schema("A0", [
    Decl(3, 1, "001", KCode),  // OrgCode
    Decl(4, 8, "", KString),  // VersionNum
    Decl(12, 2, "", KCode),  // FileCode
    Decl(44, 20, "", KString),  // SoftwareName
    Decl(64, 10, "", KString),  // SoftwareVer
    Decl(74, 20, "", KString),  // ContactName
    Decl(94, 12, "", KString),  // PhoneNumber
    Decl(106, 8, "", KTime),  // LastModified
    Decl(156, 2, "", KString)   // LscSubmitted
  ])

  /** `FileTerminationRecord`, tag Z0: no fields. */
  const FileTerminationRecord: Schema := Schema("Z0", [])

  /** `MeetRecord`, tag B1: the meet's name, place and dates. */
  const MeetRecord: Schema := Schema("B1", [
    Decl(3, 1, "001", KCode),  // OrgCode
    Decl(12, 30, "", KString),  // MeetName
    Decl(42, 22, "", KString),  // AddrLineOne
    Decl(64, 22, "", KString),  // AddrLineTwo
    Decl(86, 20, "", KString),  // City
    Decl(106, 2, "", KUSPS),  // State
    Decl(108, 10, "", KString),  // PostCode
    Decl(118, 3, "004", KCode),  // Country
    Decl(121, 1, "005", KCode),  // MeetCode
    Decl(122, 8, "", KTime),  // Start
    Decl(130, 8, "", KTime),  // End
    Decl(138, 4, "", KInt),  // Altitude
    Decl(150, 1, "013", KCode)   // Course
  ])

  /**
   * Declaration `j` is an `sdif` one inside the row, begins after
   * declaration `j - 1` ends, and is eight bytes wide when it holds a date.
   */
  predicate SoundAt(ds: seq<Decl>, j: nat)
    requires j < |ds|
  {
    Inside(ds[j]) && (ds[j].kind == KTime ==> ds[j].len == 8) &&
    (0 < j ==> ds[j - 1].Decl? && ds[j - 1].start + ds[j - 1].len <= ds[j].start)
  }

  /** A schema sound at every declaration is well-formed and fits its dates. */
  lemma SoundSchema(s: Schema)
    requires |s.tag| == 2 && forall j :: 0 <= j < |s.decls| ==> SoundAt(s.decls, j)
    ensures WellFormed(s) && DatesFit(s)
  {
    var ds := s.decls;
    forall j | 0 <= j < |ds|
      ensures Inside(ds[j]) && (ds[j].kind == KTime ==> ds[j].len == 8)
    {
      assert SoundAt(ds, j);
    }
    forall j | 0 < j < |ds|
      ensures ds[j - 1].start + ds[j - 1].len <= ds[j].start
    {
      assert SoundAt(ds, j);
    }
  }

  lemma MeetHostWellFormed()
    ensures WellFormed(MeetHostRecord) && DatesFit(MeetHostRecord)
  {
    SoundSchema(MeetHostRecord);
  }

  lemma TeamIdWellFormed()
    ensures WellFormed(TeamIdRecord) && DatesFit(TeamIdRecord)
  {
    SoundSchema(TeamIdRecord);
  }

  lemma TeamEntryWellFormed()
    ensures WellFormed(TeamEntryRecord) && DatesFit(TeamEntryRecord)
  {
    SoundSchema(TeamEntryRecord);
  }

  lemma IndividualEventDecls0To7()
    ensures forall j :: 0 <= j < 8 ==> SoundAt(IndividualEventRecord.decls, j)
  {
  }

  lemma IndividualEventDecls8To15()
    ensures forall j :: 8 <= j < 16 ==> SoundAt(IndividualEventRecord.decls, j)
  {
  }

  lemma IndividualEventDecls16To23()
    ensures forall j :: 16 <= j < 24 ==> SoundAt(IndividualEventRecord.decls, j)
  {
  }

  lemma IndividualEventDecls24To29()
    ensures forall j :: 24 <= j < 30 ==> SoundAt(IndividualEventRecord.decls, j)
  {
  }

  lemma IndividualEventWellFormed()
    ensures WellFormed(IndividualEventRecord) && DatesFit(IndividualEventRecord)
  {
    IndividualEventDecls0To7();
    IndividualEventDecls8To15();
    IndividualEventDecls16To23();
    IndividualEventDecls24To29();
    SoundSchema(IndividualEventRecord);
  }

  lemma IndividualContactWellFormed()
    ensures WellFormed(IndividualContactRecord) && DatesFit(IndividualContactRecord)
  {
    SoundSchema(IndividualContactRecord);
  }

  lemma RelayEventDecls0To3()
    ensures forall j :: 0 <= j < 4 ==> SoundAt(RelayEventRecord.decls, j)
  {
  }

  lemma RelayEventDecls4To7()
    ensures forall j :: 4 <= j < 8 ==> SoundAt(RelayEventRecord.decls, j)
  {
  }

  lemma RelayEventDecls8To15()
    ensures forall j :: 8 <= j < 16 ==> SoundAt(RelayEventRecord.decls, j)
  {
  }

  lemma RelayEventDecls16To23()
    ensures forall j :: 16 <= j < 24 ==> SoundAt(RelayEventRecord.decls, j)
  {
  }

  lemma RelayEventDecls24To25()
    ensures forall j :: 24 <= j < 26 ==> SoundAt(RelayEventRecord.decls, j)
  {
  }

  lemma RelayEventWellFormed()
    ensures WellFormed(RelayEventRecord) && DatesFit(RelayEventRecord)
  {
    RelayEventDecls0To3();
    RelayEventDecls4To7();
    RelayEventDecls8To15();
    RelayEventDecls16To23();
    RelayEventDecls24To25();
    SoundSchema(RelayEventRecord);
  }

  lemma RelayNameWellFormed()
    ensures WellFormed(RelayNameRecord) && DatesFit(RelayNameRecord)
  {
    SoundSchema(RelayNameRecord);
  }

  lemma FileDescriptionWellFormed()
    ensures WellFormed(FileDescriptionRecord) && DatesFit(FileDescriptionRecord)
  {
    SoundSchema(FileDescriptionRecord);
  }

  lemma MeetWellFormed()
    ensures WellFormed(MeetRecord) && DatesFit(MeetRecord)
  {
    SoundSchema(MeetRecord);
  }

  /**
   * No `IndividualInfoRecord` ever encodes: `Get("sdif")` finds nothing on
   * the YMCA/YWCA field, and the empty layout string is an error. When the
   * five fields before it would encode as a record of their own, that is
   * the error returned.
   */
  lemma IndividualInfoNeverEncodes(vs: seq<Value>, num: NumericText)
    requires |vs| == |IndividualInfoRecord.decls|
    ensures Row(IndividualInfoRecord, vs, num).Err?
    ensures Row(Schema(IndividualInfoRecord.tag, IndividualInfoRecord.decls[..5]), vs[..5], num).Ok? ==>
      Row(IndividualInfoRecord, vs, num) == Err(EmptyDescriptor)
  {
    var s := IndividualInfoRecord;
    var c, fs, h := Sdif(num), Fields(s.decls, vs), Header(s.tag);
    UpperCaseKey(vs[5], num);
    assert Layout(c, fs[5]) == Err(EmptyDescriptor);
    BadLayoutFails(h, fs, c, 5);
    FieldsPrefix(s.decls, vs, 5);
    RowShape(s.tag, fs[..5], c);
  }

  /** The YMCA/YWCA field's tag has no `sdif` entry, so its layout string is empty. */
  lemma UpperCaseKey(v: Value, num: NumericText)
    ensures Layout(Sdif(num), Field(TagOf(IndividualInfoRecord.decls[5]), v)) == Err(EmptyDescriptor)
  {
    var upper: Bytes := "SDIF";
    assert upper[0] != SDIF[0];
    assert TagOf(IndividualInfoRecord.decls[5]) == StructTag(upper, "START=36,LEN=1");
  }

  /**
   * An organisation code `"1"` fails a one-byte field when `"1"` reads as
   * the number `1.000000`: the raw length check passes, and the numeric
   * text is eight bytes.
   */
  lemma OrgCodeOverflows(s: Schema, vs: seq<Value>, num: NumericText)
    requires WellFormed(s) && |vs| == |s.decls| && 0 < |vs| && s.decls[0].len == 1
    requires vs[0] == Code("1") && num("1") == Some("1.000000")
    ensures Row(s, vs, num) == Err(FieldTooLong(8, 1))
  {
    var c, fs, h := Sdif(num), Fields(s.decls, vs), Header(s.tag);
    assert Inside(s.decls[0]);
    DeclLayout(s.decls[0], vs[0], num);
    var lo := s.decls[0].start - 1;
    HeaderBlanks(s.tag, lo, lo + 1);
    NumericStringOverflows(Blanks(1), num);
    assert c.write(h[lo..lo + 1], fs[0].value) == Err(FieldTooLong(8, 1));
    EncodeFieldWriterError(h, fs[0], c);
    assert EncodeFields(h, fs, c) == Err(FieldTooLong(8, 1));
  }

  /** A file description whose organisation code is `"1"` does not encode. */
  lemma FileDescriptionOrgCode(vs: seq<Value>, num: NumericText)
    requires |vs| == |FileDescriptionRecord.decls| && vs[0] == Code("1") && num("1") == Some("1.000000")
    ensures Row(FileDescriptionRecord, vs, num) == Err(FieldTooLong(8, 1))
  {
    FileDescriptionWellFormed();
    OrgCodeOverflows(FileDescriptionRecord, vs, num);
  }

  /** A file terminator is the tag `Z0`, 158 blanks and the letters `r` `n`. */
  lemma FileTerminatorRow(num: NumericText)
    ensures var z0: Bytes, rn: Bytes := "Z0", "rn";
      Row(FileTerminatorRecord, [], num) == Ok(z0 + Blanks(158) + rn) &&
      Row(FileTerminationRecord, [], num) == Ok(z0 + Blanks(158) + rn)
  {
    var z0: Bytes, rn: Bytes := "Z0", "rn";
    var h := Header(z0);
    assert Fields([], []) == [];
    var row := h[160 := 'r'][161 := 'n'];
    var expected := z0 + Blanks(158) + rn;
    assert forall i :: 0 <= i < ROW_LEN ==> row[i] == expected[i];
    assert row == expected;
  }
}
