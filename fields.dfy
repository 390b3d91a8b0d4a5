/** The field extractor `extract_fields` (filter_contract.py:82-149) and
    the per-document step of the driver (filter_contract.py:164-167):
    sanitise the text, then fill the 13-key record. */
module Fields {
  import opened Wrappers
  import opened Text
  import opened Patterns
  import opened Locator
  import opened NoiseFilter

  // ---------------------------------------------------------------------
  // The nine search patterns, all run on the lower-cased text
  // ---------------------------------------------------------------------

  /** `£([\d,.]+)\s*\+\s*vat per month` */
  const MonthlyPaymentRule: Pattern :=
    Pattern([Lit("£")], Amount, [Blanks, Lit("+"), Blanks, Lit("vat per month")])

  /** `initial rental\s*£([\d,.]+)` */
  const DownPaymentRule: Pattern :=
    Pattern([Lit("initial rental"), Blanks, Lit("£")], Amount, [])

  /** `(\d+)\s*month term` */
  const LeaseTermRule: Pattern :=
    Pattern([], Digits, [Blanks, Lit("month term")])

  /** `annual mileage allowance of\s*(\d+)` */
  const AnnualMileageRule: Pattern :=
    Pattern([Lit("annual mileage allowance of"), Blanks], Digits, [])

  /** `total cost of lease over the term\s*£([\d,.]+)` */
  const TotalCostRule: Pattern :=
    Pattern([Lit("total cost of lease over the term"), Blanks, Lit("£")], Amount, [])

  /** `fuel type\s*([a-z]+)` */
  const FuelTypeRule: Pattern :=
    Pattern([Lit("fuel type"), Blanks], Letters, [])

  /** `transmission\s*([a-z]+)` */
  const TransmissionRule: Pattern :=
    Pattern([Lit("transmission"), Blanks], Letters, [])

  /** `co2\s*(\d+)\s*g/km` */
  const Co2Rule: Pattern :=
    Pattern([Lit("co2"), Blanks], Digits, [Blanks, Lit("g/km")])

  /** `p11d\s*£([\d,.]+)` */
  const P11dRule: Pattern :=
    Pattern([Lit("p11d"), Blanks, Lit("£")], Amount, [])

  /** The rules with text after the group. */
  lemma TrailingRulesAreWellFormed()
    ensures WellFormed(MonthlyPaymentRule) && WellFormed(LeaseTermRule) && WellFormed(Co2Rule)
  {
  }

  /** The amount rules that end with their group. */
  lemma AmountRulesAreWellFormed()
    ensures WellFormed(DownPaymentRule) && WellFormed(TotalCostRule) && WellFormed(P11dRule)
  {
  }

  /** The word and mileage rules. */
  lemma WordRulesAreWellFormed()
    ensures WellFormed(AnnualMileageRule) && WellFormed(FuelTypeRule) && WellFormed(TransmissionRule)
  {
  }

  /** Every rule has the shape on which the greedy matcher is exact. */
  lemma RulesAreWellFormed()
    ensures WellFormed(MonthlyPaymentRule) && WellFormed(DownPaymentRule)
    ensures WellFormed(LeaseTermRule) && WellFormed(AnnualMileageRule)
    ensures WellFormed(TotalCostRule) && WellFormed(FuelTypeRule)
    ensures WellFormed(TransmissionRule) && WellFormed(Co2Rule) && WellFormed(P11dRule)
  {
    TrailingRulesAreWellFormed();
    AmountRulesAreWellFormed();
    WordRulesAreWellFormed();
  }

  // ---------------------------------------------------------------------
  // One field each
  // ---------------------------------------------------------------------

  /** A non-empty run over `[\d,.]`. */
  predicate IsAmountText(s: string) {
    s != [] && forall i | 0 <= i < |s| :: InClass(s[i], Amount)
  }

  /** A non-empty run of digits. */
  predicate IsDigitText(s: string) {
    s != [] && forall i | 0 <= i < |s| :: IsDigit(s[i])
  }

  /** An upper-case letter followed by lower-case letters only. */
  predicate IsCapitalizedWord(s: string) {
    s != [] && IsUpperLetter(s[0]) && forall i | 1 <= i < |s| :: IsLowerLetter(s[i])
  }

  /** No character of the sentinel is in any group class: its first
      character is upper case and its fourth is a space. */
  lemma SentinelOutsideClasses(cls: Class)
    ensures !InClass(NotAvailable[0], cls) && NotAvailable[3] == ' ' && !InClass(NotAvailable[3], cls)
  {
  }

  /** `m.group(1) if m else "Not Available"`. */
  function Captured(t: string, pat: Pattern): (r: string)
    ensures r == NotAvailable <==> Find(t, pat).None?
    ensures r != NotAvailable ==> r != [] && forall i | 0 <= i < |r| :: InClass(r[i], pat.group)
  {
    match Find(t, pat)
    case None => NotAvailable
    case Some(g) =>
      SentinelOutsideClasses(pat.group);
      g
  }

  /** For a well-formed rule the captured value is the sentinel exactly
      when the rule parses nowhere, and otherwise the group Python's
      `re.search` reports. */
  ghost predicate Answers(t: string, pat: Pattern, v: string) {
    (v == NotAvailable <==> NoParse(t, pat))
    && (v != NotAvailable ==> IsSearchGroup(t, pat, v))
  }

  lemma CapturedMeaning(t: string, pat: Pattern)
    requires WellFormed(pat)
    ensures Answers(t, pat, Captured(t, pat))
  {
    FindMeaning(t, pat);
  }

  /** The group text is lower case already, so lower-casing it again
      changes nothing. */
  lemma LowerOfLowerCase(s: string)
    requires forall i | 0 <= i < |s| :: !IsUpperLetter(s[i])
    ensures Lower(s) == s
  {
  }

  /** `str.capitalize()`: the first character upper-cased, the rest
      lower-cased. */
  function Capitalize(w: string): (r: string)
    ensures |r| == |w| && Lower(r) == Lower(w)
    ensures w != [] ==> r[0] == ToUpper(w[0])
    ensures w != [] && IsLowerLetter(w[0]) ==> IsUpperLetter(r[0])
    ensures forall i | 1 <= i < |r| :: !IsUpperLetter(r[i])
  {
    if w == [] then []
    else
      var r := [ToUpper(w[0])] + Lower(w[1..]);
      assert ToLower(r[0]) == ToLower(w[0]);
      LowerAppend([ToUpper(w[0])], Lower(w[1..]));
      LowerAppend([w[0]], w[1..]);
      LowerOfLowerCase(Lower(w[1..]));
      assert w == [w[0]] + w[1..];
      r
  }

  /** `m.group(1).capitalize() if m else "Not Available"`. */
  function WordField(t: string, pat: Pattern): (r: string)
    ensures r == NotAvailable <==> Find(t, pat).None?
    ensures r != NotAvailable ==> Lower(r) == Captured(t, pat)
    ensures r != NotAvailable && pat.group == Letters ==> IsCapitalizedWord(r)
  {
    var g := Captured(t, pat);
    if g == NotAvailable then NotAvailable
    else
      var r := Capitalize(g);
      LowerOfLowerCase(g);
      SentinelOutsideClasses(pat.group);
      r
  }

  /** `f"{m.group(1)} g/km" if m else "Not Available"`. */
  function Co2Field(t: string): (r: string)
    ensures r == NotAvailable <==> Find(t, Co2Rule).None?
    ensures r != NotAvailable ==>
              |r| > 5 && r[|r| - 5..] == " g/km" && IsDigitText(r[..|r| - 5])
              && r[..|r| - 5] == Captured(t, Co2Rule)
  {
    var g := Captured(t, Co2Rule);
    if g == NotAvailable then NotAvailable
    else
      var r := g + " g/km";
      assert r[..|r| - 5] == g;
      r
  }

  /** `"Present" if "excess mileage" in text_lower else "Not Available"`. */
  function ExcessMileage(t: string): (r: string)
    ensures r == "Present" <==> Contains(t, "excess mileage")
    ensures r == NotAvailable <==> !Contains(t, "excess mileage")
  {
    if Contains(t, "excess mileage") then "Present" else NotAvailable
  }

  /** The maintenance test: the negative phrase wins over the positive
      one. */
  function Maintenance(t: string): (r: string)
    ensures r == "No" <==> Contains(t, "does not include maintenance")
    ensures r == "Yes" <==> !Contains(t, "does not include maintenance") && Contains(t, "includes maintenance")
    ensures r == NotAvailable <==> !Contains(t, "does not include maintenance") && !Contains(t, "includes maintenance")
  {
    if Contains(t, "does not include maintenance") then "No"
    else if Contains(t, "includes maintenance") then "Yes"
    else NotAvailable
  }

  /** The constant list of `not_available_in_document`. */
  const AbsentFields: seq<string> :=
    ["VIN number", "APR / Interest rate", "Residual value",
     "Purchase option / Buyout price", "Early termination penalties",
     "Late payment fees", "Warranty details", "Insurance coverage"]

  // ---------------------------------------------------------------------
  // The record
  // ---------------------------------------------------------------------

  /** The extracted contract, one field per key of the record. */
  datatype Contract = Contract(
    vehicleName: string,
    monthlyPayment: string,
    downPayment: string,
    leaseTermMonths: string,
    annualMileage: string,
    excessMileageClause: string,
    maintenanceIncluded: string,
    totalLeaseCost: string,
    fuelType: string,
    transmission: string,
    co2Emissions: string,
    p11dValue: string,
    notAvailableInDocument: seq<string>)

  /** What `extract_fields(text)` computes, field by field. */
  function Extract(text: string): (r: Contract)
    ensures r.vehicleName == VehicleName(text)
    ensures r.excessMileageClause == "Present" <==> Contains(Lower(text), "excess mileage")
    ensures r.maintenanceIncluded in {"No", "Yes", NotAvailable}
    ensures r.notAvailableInDocument == AbsentFields && |r.notAvailableInDocument| == 8
  {
    var low := Lower(text);
    Contract(
      VehicleName(text),
      Captured(low, MonthlyPaymentRule),
      Captured(low, DownPaymentRule),
      Captured(low, LeaseTermRule),
      Captured(low, AnnualMileageRule),
      ExcessMileage(low),
      Maintenance(low),
      Captured(low, TotalCostRule),
      WordField(low, FuelTypeRule),
      WordField(low, TransmissionRule),
      Co2Field(low),
      Captured(low, P11dRule),
      AbsentFields)
  }

  /** Only the vehicle name sees the original letter case: two texts that
      lower-case alike give records that differ at most in that name. */
  lemma CaseOnlyReachesName(a: string, b: string)
    requires Lower(a) == Lower(b)
    ensures Extract(a).(vehicleName := "") == Extract(b).(vehicleName := "")
  {
  }

  /** Every field of the record has the form the source promises: a
      captured run of the field's class or the sentinel, a capitalised word,
      a digit run with its unit, one of the categorical answers, or the
      constant list. */
  lemma ExtractShape(text: string)
    ensures var c := Extract(text);
      && (c.monthlyPayment == NotAvailable || IsAmountText(c.monthlyPayment))
      && (c.downPayment == NotAvailable || IsAmountText(c.downPayment))
      && (c.leaseTermMonths == NotAvailable || IsDigitText(c.leaseTermMonths))
      && (c.annualMileage == NotAvailable || IsDigitText(c.annualMileage))
      && (c.totalLeaseCost == NotAvailable || IsAmountText(c.totalLeaseCost))
      && (c.p11dValue == NotAvailable || IsAmountText(c.p11dValue))
    ensures var c := Extract(text);
      && (c.excessMileageClause == "Present" <==> Contains(Lower(text), "excess mileage"))
      && (c.excessMileageClause == NotAvailable <==> !Contains(Lower(text), "excess mileage"))
      && c.maintenanceIncluded in {"No", "Yes", NotAvailable}
    ensures var c := Extract(text);
      && (c.fuelType == NotAvailable || IsCapitalizedWord(c.fuelType))
      && (c.transmission == NotAvailable || IsCapitalizedWord(c.transmission))
      && (c.co2Emissions == NotAvailable || exists d | IsDigitText(d) :: c.co2Emissions == d + " g/km")
      && c.notAvailableInDocument == AbsentFields
  {
    var co2 := Co2Field(Lower(text));
    assert co2 != NotAvailable ==> co2 == co2[..|co2| - 5] + " g/km";
  }

  /** A value of the record: a string, or the list of absent fields. */
  datatype Value = Str(s: string) | Items(items: seq<string>)

  /** The keys of the record, in insertion order (the order `json.dump`
      writes them). */
  const FieldNames: seq<string> :=
    ["vehicle_name", "monthly_payment", "down_payment", "lease_term_months",
     "annual_mileage", "excess_mileage_clause", "maintenance_included",
     "total_lease_cost", "fuel_type", "transmission", "co2_emissions",
     "p11d_value", "not_available_in_document"]

  /** No key appears twice. */
  lemma FieldNamesDistinct()
    ensures forall i, j | 0 <= i < j < |FieldNames| :: FieldNames[i] != FieldNames[j]
  {
  }

  function Keys(d: seq<(string, Value)>): (ks: seq<string>)
    ensures |ks| == |d| && forall i | 0 <= i < |d| :: ks[i] == d[i].0
  {
    if d == [] then [] else [d[0].0] + Keys(d[1..])
  }

  /** The dict `data` as a sequence of key-value pairs in insertion
      order. */
  function Entries(c: Contract): (d: seq<(string, Value)>)
    ensures Keys(d) == FieldNames
    ensures forall i | 0 <= i < 12 :: d[i].1.Str?
    ensures d[12].1 == Items(c.notAvailableInDocument)
  {
    [("vehicle_name", Str(c.vehicleName)),
     ("monthly_payment", Str(c.monthlyPayment)),
     ("down_payment", Str(c.downPayment)),
     ("lease_term_months", Str(c.leaseTermMonths)),
     ("annual_mileage", Str(c.annualMileage)),
     ("excess_mileage_clause", Str(c.excessMileageClause)),
     ("maintenance_included", Str(c.maintenanceIncluded)),
     ("total_lease_cost", Str(c.totalLeaseCost)),
     ("fuel_type", Str(c.fuelType)),
     ("transmission", Str(c.transmission)),
     ("co2_emissions", Str(c.co2Emissions)),
     ("p11d_value", Str(c.p11dValue)),
     ("not_available_in_document", Items(c.notAvailableInDocument))]
  }

  /** The record before any key is set. */
  const EmptyRecord: Contract := Contract("", "", "", "", "", "", "", "", "", "", "", "", [])

  /** `extract_fields` as the source writes it: the record filled key by
      key, each pattern key from its own `re.search`. */
  method ExtractFields(text: string) returns (data: Contract)
    ensures data == Extract(text)
  {
    var textLower := Lower(text);
    data := EmptyRecord;
    var name := ExtractVehicleName(text);
    data := data.(vehicleName := name);
    data := data.(monthlyPayment := Captured(textLower, MonthlyPaymentRule));
    data := data.(downPayment := Captured(textLower, DownPaymentRule));
    data := data.(leaseTermMonths := Captured(textLower, LeaseTermRule));
    data := data.(annualMileage := Captured(textLower, AnnualMileageRule));
    data := data.(excessMileageClause := if Contains(textLower, "excess mileage") then "Present" else NotAvailable);
    if Contains(textLower, "does not include maintenance") {
      data := data.(maintenanceIncluded := "No");
    } else if Contains(textLower, "includes maintenance") {
      data := data.(maintenanceIncluded := "Yes");
    } else {
      data := data.(maintenanceIncluded := NotAvailable);
    }
    data := data.(totalLeaseCost := Captured(textLower, TotalCostRule));
    data := data.(fuelType := WordField(textLower, FuelTypeRule));
    data := data.(transmission := WordField(textLower, TransmissionRule));
    data := data.(co2Emissions := Co2Field(textLower));
    data := data.(p11dValue := Captured(textLower, P11dRule));
    data := data.(notAvailableInDocument := AbsentFields);
  }

  /** One document of the driver loop: sanitise, then extract; the result
      is what `json.dump` writes. */
  method FilterText(text: string) returns (json: seq<(string, Value)>)
    ensures json == Entries(Extract(Sanitize(text)))
    ensures Keys(json) == FieldNames
  {
    var textCleaned := Sanitize(text);
    var extractedData := ExtractFields(textCleaned);
    json := Entries(extractedData);
  }

  // ---------------------------------------------------------------------
  // The pattern fields are what Python's `re.search` reports
  // ---------------------------------------------------------------------

  lemma ExtractAgreesWithSearch(text: string)
    ensures var low, c := Lower(text), Extract(text);
      && Answers(low, MonthlyPaymentRule, c.monthlyPayment)
      && Answers(low, DownPaymentRule, c.downPayment)
      && Answers(low, LeaseTermRule, c.leaseTermMonths)
      && Answers(low, AnnualMileageRule, c.annualMileage)
      && Answers(low, TotalCostRule, c.totalLeaseCost)
      && Answers(low, P11dRule, c.p11dValue)
    ensures var low, c := Lower(text), Extract(text);
      && (c.fuelType == NotAvailable <==> NoParse(low, FuelTypeRule))
      && (c.fuelType != NotAvailable ==> IsSearchGroup(low, FuelTypeRule, Lower(c.fuelType)))
      && (c.transmission == NotAvailable <==> NoParse(low, TransmissionRule))
      && (c.transmission != NotAvailable ==> IsSearchGroup(low, TransmissionRule, Lower(c.transmission)))
    ensures var low, c := Lower(text), Extract(text);
      && (c.co2Emissions == NotAvailable <==> NoParse(low, Co2Rule))
      && (c.co2Emissions != NotAvailable ==>
            IsSearchGroup(low, Co2Rule, c.co2Emissions[..|c.co2Emissions| - 5]))
  {
    var low := Lower(text);
    RulesAreWellFormed();
    CapturedMeaning(low, MonthlyPaymentRule);
    CapturedMeaning(low, DownPaymentRule);
    CapturedMeaning(low, LeaseTermRule);
    CapturedMeaning(low, AnnualMileageRule);
    CapturedMeaning(low, TotalCostRule);
    CapturedMeaning(low, P11dRule);
    CapturedMeaning(low, FuelTypeRule);
    CapturedMeaning(low, TransmissionRule);
    CapturedMeaning(low, Co2Rule);
  }

  // ---------------------------------------------------------------------
  // Examples
  // ---------------------------------------------------------------------

  lemma DownPaymentExample()
    ensures Captured("initial rental £500.00", DownPaymentRule) == "500.00"
  {
    var t := "initial rental £500.00";
    assert t[0..14] == "initial rental";
    assert SkipBlanks(t, 14) == 15;
    assert t[15..16] == "£";
    assert Walk(t, 15, [Lit("£")]) == Some(16);
    assert Walk(t, 14, [Blanks, Lit("£")]) == Some(16);
    assert DownPaymentRule.before[1..] == [Blanks, Lit("£")];
    assert Walk(t, 0, DownPaymentRule.before) == Some(16);
    assert RunEnd(t, 16, Amount) == 22;
    assert MatchAt(t, 0, DownPaymentRule) == Some((16, 22));
  }

  lemma LeaseTermExample()
    ensures Captured("36 month term", LeaseTermRule) == "36"
  {
    var t := "36 month term";
    assert RunEnd(t, 0, Digits) == 2;
    assert SkipBlanks(t, 2) == 3;
    assert t[3..13] == "month term";
    assert Walk(t, 2, LeaseTermRule.after) == Some(13);
    assert MatchAt(t, 0, LeaseTermRule) == Some((0, 2));
  }

  lemma Co2Example()
    ensures Co2Field("co2 120 g/km") == "120 g/km"
  {
    var t := "co2 120 g/km";
    assert t[0..3] == "co2";
    assert SkipBlanks(t, 3) == 4;
    assert Walk(t, 3, [Blanks]) == Some(4);
    assert Co2Rule.before[1..] == [Blanks];
    assert Walk(t, 0, Co2Rule.before) == Some(4);
    assert RunEnd(t, 4, Digits) == 7;
    assert Walk(t, 7, Co2Rule.after) == Some(12);
    assert MatchAt(t, 0, Co2Rule) == Some((4, 7));
  }

  /** A text with capitals at two positions lower-cases to `low` when
      `low` holds their lower-case forms there and the text's own
      characters everywhere else. */
  lemma LowerTwoCapitals(text: string, low: string, j: nat, k: nat)
    requires |text| == |low| && j < |text| && k < |text|
    requires low[j] == ToLower(text[j]) && low[k] == ToLower(text[k])
    requires forall i | 0 <= i < |text| && i != j && i != k :: !IsUpperLetter(text[i]) && low[i] == text[i]
    ensures Lower(text) == low
  {
  }

  lemma InitialRentalText(text: string)
    requires text == "Initial Rental £500.00"
    ensures |text| == 22 && text[0] == 'I' && text[8] == 'R'
    ensures forall i | 0 <= i < 22 && i != 0 && i != 8 :: !IsUpperLetter(text[i])
  {
  }

  lemma InitialRentalLowered(text: string, low: string)
    requires text == "Initial Rental £500.00" && low == "initial rental £500.00"
    ensures |low| == 22 && low[0] == 'i' && low[8] == 'r'
    ensures forall i | 0 <= i < 22 && i != 0 && i != 8 :: low[i] == text[i]
  {
  }

  /** The text is lower-cased before the search, so a capitalised heading
      is found. */
  lemma InitialRentalExample(text: string)
    requires text == "Initial Rental £500.00"
    ensures Extract(text).downPayment == "500.00"
  {
    var low := "initial rental £500.00";
    InitialRentalText(text);
    InitialRentalLowered(text, low);
    LowerTwoCapitals(text, low, 0, 8);
    DownPaymentExample();
  }

  lemma Co2Text(text: string)
    requires text == "CO2 120 g/km"
    ensures |text| == 12 && text[0] == 'C' && text[1] == 'O'
    ensures forall i | 2 <= i < 12 :: !IsUpperLetter(text[i])
  {
  }

  lemma Co2Lowered(text: string, low: string)
    requires text == "CO2 120 g/km" && low == "co2 120 g/km"
    ensures |low| == 12 && low[0] == 'c' && low[1] == 'o'
    ensures forall i | 2 <= i < 12 :: low[i] == text[i]
  {
  }

  lemma Co2RecordExample(text: string)
    requires text == "CO2 120 g/km"
    ensures Extract(text).co2Emissions == "120 g/km"
  {
    var low := "co2 120 g/km";
    Co2Text(text);
    Co2Lowered(text, low);
    LowerTwoCapitals(text, low, 0, 1);
    Co2Example();
  }
}
