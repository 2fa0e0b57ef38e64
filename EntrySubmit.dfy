/**
 * The entry form (App.js:179-371): the checks `handleSubmit` makes before a record is stored, the
 * record it composes, and the way an `accountInfo` string is split back into the bank fields when a
 * suggestion is picked.
 */
module EntrySubmit {
  import opened Wrappers
  import opened Strings
  import opened Records
  import Suggestions

  const DefaultHourlyRate := 3000

  /** The dropdown entry that lets the user type a bank name of their own. */
  const OtherBank := "기타"

  const BankNamesRaw: seq<string> := [
    "우리", "기업", "산업", "국민", "농협", "하나", "신한",
    "한국씨티", "토스뱅크", "케이뱅크", "카카오뱅크", "수협", "외환", "SC제일"
  ]

  /** The dropdown's entries: the banks (sorted for display) and then the "other" entry. */
  const BankNamesWithOther: seq<string> := BankNamesRaw + [OtherBank]

  /** A numeric text field: its text and what `parseFloat` makes of it (None for NaN). */
  datatype NumberField = NumberField(text: string, parsed: Option<int>)

  /** The duration dropdown: one of the preset hours, or "custom" with a typed number. */
  datatype DurationOption = Preset(hours: int) | Custom

  /** The entry form's state at the moment of submission. */
  datatype EntryForm = EntryForm(
    parkingLocation: string,
    parkingDate: CalendarDate,
    name: string,
    position: string,
    selectedBank: string,
    customBankName: string,
    accountNumber: string,
    durationOption: DurationOption,
    customDuration: NumberField,
    hourlyRate: NumberField)

  /** `getParkingDurationHours`: a custom duration that is NaN or 0 counts as 0. */
  function DurationHours(f: EntryForm): int {
    match f.durationOption
    case Preset(h) => h
    case Custom =>
      match f.customDuration.parsed
      case None => 0
      case Some(v) => v
  }

  /** `parseFloat(hourlyRate) || DEFAULT_HOURLY_RATE`: NaN and 0 both fall back to the default. */
  function CurrentHourlyRate(f: EntryForm): int {
    match f.hourlyRate.parsed
    case None => DefaultHourlyRate
    case Some(v) => if v == 0 then DefaultHourlyRate else v
  }

  /** The bank name stored: the typed name, trimmed, when "other" is selected. */
  function FinalBankName(f: EntryForm): string {
    ChosenBank(f.selectedBank, f.customBankName)
  }

  /** The reasons `handleSubmit` refuses to store a record, in the order it checks them. */
  datatype SubmitError =
    | NotConnected          // the store or the signed-in user is not ready
    | InvalidDuration       // the duration is not positive
    | InvalidRate           // the hourly rate is not positive
    | MissingBankName       // "other" is selected and the typed bank name is blank
    | MissingAccountNumber  // the account number is blank

  /**
   * `handleSubmit` up to the store call: the record it would store, or why it stops. `now` is the
   * instant the store's `serverTimestamp()` resolves to; the id is assigned by the store.
   */
  function Submit(f: EntryForm, connected: bool, now: int): (r: Result<ParkingRecord, SubmitError>)
    ensures r.Ok? ==> r.value.parkingDurationHours > 0 && r.value.hourlyRate > 0
    ensures r.Ok? ==> r.value.calculatedFee == Some(r.value.parkingDurationHours * r.value.hourlyRate)
    ensures r.Ok? ==> r.value.isCustomDuration == f.durationOption.Custom?
  {
    var d := DurationHours(f);
    var rate := CurrentHourlyRate(f);
    if !connected then Err(NotConnected)
    else if d <= 0 then Err(InvalidDuration)
    else if rate <= 0 then Err(InvalidRate)
    else if f.selectedBank == OtherBank && FinalBankName(f) == "" then Err(MissingBankName)
    else if Trim(f.accountNumber) == "" then Err(MissingAccountNumber)
    else
      Ok(ParkingRecord(
        id := "",
        parkingLocation := f.parkingLocation,
        parkingDate := f.parkingDate,
        name := Trim(f.name),
        position := f.position,
        accountInfo := FinalBankName(f) + "/" + Trim(f.accountNumber),
        parkingDurationHours := d,
        isCustomDuration := f.durationOption.Custom?,
        customDurationDetail := if f.durationOption.Custom? then f.customDuration.text else "",
        hourlyRate := rate,
        calculatedFee := Some(d * rate),
        createdAt := StoreTimestamp(now)))
  }

  /** All checks pass. */
  predicate Acceptable(f: EntryForm, connected: bool) {
    && connected
    && DurationHours(f) > 0
    && CurrentHourlyRate(f) > 0
    && (f.selectedBank == OtherBank ==> !IsBlank(f.customBankName))
    && !IsBlank(f.accountNumber)
  }

  /**
   * A record is produced exactly when every check passes, and then its account is
   * `bank/account` with the bank and the account number trimmed, its name is trimmed, and its fee
   * is the positive duration times the positive rate; an empty or non-numeric rate is 3000.
   */
  lemma SubmitAccepts(f: EntryForm, connected: bool, now: int)
    ensures Submit(f, connected, now).Ok? <==> Acceptable(f, connected)
    ensures Submit(f, connected, now).Ok? ==>
      var r := Submit(f, connected, now).value;
      && r.accountInfo == FinalBankName(f) + "/" + Trim(f.accountNumber)
      && r.name == Trim(f.name)
      && r.parkingDurationHours == DurationHours(f) > 0
      && r.hourlyRate == CurrentHourlyRate(f) > 0
      && r.calculatedFee == Some(DurationHours(f) * CurrentHourlyRate(f))
      && Fee(r) == DurationHours(f) * CurrentHourlyRate(f)
      && (f.hourlyRate.parsed.None? ==> r.hourlyRate == DefaultHourlyRate)
  {
  }

  /** A stored record always carries a positive fee. */
  lemma FeePositive(f: EntryForm, connected: bool, now: int)
    requires Submit(f, connected, now).Ok?
    ensures Fee(Submit(f, connected, now).value) > 0
  {
    SubmitAccepts(f, connected, now);
    ProductPositive(DurationHours(f), CurrentHourlyRate(f));
  }

  lemma ProductPositive(a: int, b: int)
    requires a > 0 && b > 0
    ensures a * b > 0
  {
  }

  /** Each refusal names the first check that fails. */
  lemma SubmitRefuses(f: EntryForm, connected: bool, now: int)
    ensures Submit(f, connected, now) == Err(NotConnected) <==> !connected
    ensures Submit(f, connected, now) == Err(InvalidDuration) <==> connected && DurationHours(f) <= 0
    ensures Submit(f, connected, now) == Err(InvalidRate) <==>
      connected && DurationHours(f) > 0 && CurrentHourlyRate(f) <= 0
    ensures Submit(f, connected, now) == Err(MissingBankName) <==>
      connected && DurationHours(f) > 0 && CurrentHourlyRate(f) > 0
      && f.selectedBank == OtherBank && IsBlank(f.customBankName)
    ensures Submit(f, connected, now) == Err(MissingAccountNumber) <==>
      connected && DurationHours(f) > 0 && CurrentHourlyRate(f) > 0
      && (f.selectedBank == OtherBank ==> !IsBlank(f.customBankName))
      && IsBlank(f.accountNumber)
  {
  }

  /**
   * Splitting a composed `accountInfo` on `/` gives back the bank and the trimmed account number,
   * provided neither holds a `/`.
   */
  lemma AccountInfoSplits(f: EntryForm, connected: bool, now: int)
    requires Submit(f, connected, now).Ok?
    requires '/' !in FinalBankName(f) && '/' !in f.accountNumber
    ensures Split(Submit(f, connected, now).value.accountInfo, '/') == [FinalBankName(f), Trim(f.accountNumber)]
  {
    SubmitAccepts(f, connected, now);
    var t := Trim(f.accountNumber);
    assert '/' !in t;
    assert Submit(f, connected, now).value.accountInfo == FinalBankName(f) + ['/'] + t;
    SplitJoinTwo(FinalBankName(f), t, '/');
  }

  /**
   * The bank fields a picked `accountInfo` fills in (App.js:248-254 and 286-293): a listed bank is
   * selected with no typed name, any other text selects "other" and becomes the typed name, and
   * the part after the first `/` without its hyphens becomes the account number ("" when absent).
   */
  function FillFromAccountInfo(f: EntryForm, accountInfo: string): (g: EntryForm)
    ensures g.selectedBank in BankNamesWithOther
    ensures var bank := Split(accountInfo, '/')[0];
      bank in BankNamesWithOther ==> g.selectedBank == bank && g.customBankName == ""
    ensures var bank := Split(accountInfo, '/')[0];
      bank !in BankNamesWithOther ==> g.selectedBank == OtherBank && g.customBankName == bank
    ensures '-' !in g.accountNumber
    ensures Suggestions.AccountDigits(accountInfo).Some? ==> g.accountNumber == Suggestions.AccountDigits(accountInfo).value
    ensures Suggestions.AccountDigits(accountInfo).None? ==> g.accountNumber == ""
    ensures g == f.(selectedBank := g.selectedBank, customBankName := g.customBankName, accountNumber := g.accountNumber)
  {
    var parts := Split(accountInfo, '/');
    var accNum := match Suggestions.AccountDigits(accountInfo) case Some(d) => d case None => "";
    var (selected, custom) := BankFields(parts[0], BankNamesWithOther);
    f.(selectedBank := selected, customBankName := custom, accountNumber := accNum)
  }

  /** The dropdown entry and the typed name that show `bank`, given the dropdown's entries. */
  function BankFields(bank: string, banks: seq<string>): (fields: (string, string))
    requires OtherBank in banks
    ensures fields.0 in banks
    ensures bank in banks ==> fields == (bank, "")
    ensures bank !in banks ==> fields == (OtherBank, bank)
  {
    if bank in banks then (bank, "") else (OtherBank, bank)
  }

  /** The bank name the form would store with the given dropdown entry and typed name. */
  function ChosenBank(selected: string, custom: string): string {
    if selected == OtherBank then Trim(custom) else selected
  }

  /** Showing a stored bank name in the bank fields and reading it back gives the same name. */
  lemma BankFieldsRestore(selected: string, custom: string, banks: seq<string>)
    requires OtherBank in banks && selected in banks
    requires ChosenBank(selected, custom) != OtherBank
    ensures var fields := BankFields(ChosenBank(selected, custom), banks);
      ChosenBank(fields.0, fields.1) == ChosenBank(selected, custom)
  {
    if ChosenBank(selected, custom) !in banks {
      TrimIdempotent(custom);
    }
  }

  /**
   * Picking the `accountInfo` of a record submitted from `f` restores `f`'s bank and its account
   * number (without hyphens). A bank typed as the text "기타" itself is not restored: it reads back
   * as the "other" entry with nothing typed.
   */
  lemma FillRestoresBank(f: EntryForm, connected: bool, now: int, h: EntryForm)
    requires Submit(f, connected, now).Ok?
    requires f.selectedBank in BankNamesWithOther && FinalBankName(f) != OtherBank
    requires '/' !in FinalBankName(f) && '/' !in f.accountNumber
    ensures var g := FillFromAccountInfo(h, Submit(f, connected, now).value.accountInfo);
      && FinalBankName(g) == FinalBankName(f)
      && g.accountNumber == RemoveAll(Trim(f.accountNumber), '-')
  {
    var info := Submit(f, connected, now).value.accountInfo;
    AccountInfoSplits(f, connected, now);
    SubmitAccepts(f, connected, now);
    FillSplit(h, info, FinalBankName(f), Trim(f.accountNumber));
    BankFieldsRestore(f.selectedBank, f.customBankName, BankNamesWithOther);
  }

  /** The fields filled from an `accountInfo` that splits into a bank and a non-empty account. */
  lemma FillSplit(h: EntryForm, info: string, bank: string, account: string)
    requires Split(info, '/') == [bank, account] && account != ""
    ensures var fields := BankFields(bank, BankNamesWithOther);
      FillFromAccountInfo(h, info) ==
        h.(selectedBank := fields.0, customBankName := fields.1, accountNumber := RemoveAll(account, '-'))
  {
  }

  /**
   * Filling the form from the record it produced, when the account number holds no hyphen (the
   * account field strips them as they are typed), and submitting again stores the same record.
   */
  lemma ResubmitSame(f: EntryForm, connected: bool, now: int)
    requires Submit(f, connected, now).Ok?
    requires f.selectedBank in BankNamesWithOther && FinalBankName(f) != OtherBank
    requires '/' !in FinalBankName(f) && '/' !in f.accountNumber && '-' !in f.accountNumber
    ensures Submit(FillFromAccountInfo(f, Submit(f, connected, now).value.accountInfo), connected, now)
      == Submit(f, connected, now)
  {
    var g := FillFromAccountInfo(f, Submit(f, connected, now).value.accountInfo);
    FillRestoresBank(f, connected, now, f);
    SubmitAccepts(f, connected, now);
    HyphenFreeAccount(f.accountNumber);
    BankFieldsShown(f.selectedBank, f.customBankName, BankNamesWithOther);
    SameStoredFields(f, g, connected, now);
  }

  /** A trimmed account number without hyphens is left as it is by the account field and by `trim`. */
  lemma HyphenFreeAccount(account: string)
    requires '-' !in account
    ensures RemoveAll(Trim(account), '-') == Trim(account)
    ensures Trim(Trim(account)) == Trim(account)
  {
    TrimIdempotent(account);
  }

  /** A bank shown as the "other" entry comes with a typed name that is not empty. */
  lemma BankFieldsShown(selected: string, custom: string, banks: seq<string>)
    requires OtherBank in banks && selected in banks
    requires ChosenBank(selected, custom) != OtherBank
    requires selected == OtherBank ==> !IsBlank(custom)
    ensures var fields := BankFields(ChosenBank(selected, custom), banks);
      fields.0 == OtherBank ==> ChosenBank(fields.0, fields.1) != ""
  {
    BankFieldsRestore(selected, custom, banks);
  }

  /** Two forms that differ only in how they show the same bank and account store the same record. */
  lemma SameStoredFields(f: EntryForm, g: EntryForm, connected: bool, now: int)
    requires g == f.(selectedBank := g.selectedBank, customBankName := g.customBankName, accountNumber := g.accountNumber)
    requires FinalBankName(g) == FinalBankName(f) && Trim(g.accountNumber) == Trim(f.accountNumber)
    requires g.selectedBank == OtherBank ==> FinalBankName(g) != ""
    requires Submit(f, connected, now).Ok?
    ensures Submit(g, connected, now) == Submit(f, connected, now)
  {
    var d, rate := DurationHours(f), CurrentHourlyRate(f);
    assert DurationHours(g) == d && CurrentHourlyRate(g) == rate;
    assert !(f.selectedBank == OtherBank && FinalBankName(f) == "");
    assert !(g.selectedBank == OtherBank && FinalBankName(g) == "");
    assert Trim(g.accountNumber) != "";
    assert Submit(g, connected, now).Ok?;
    assert Submit(g, connected, now).value == Submit(f, connected, now).value;
  }
}
