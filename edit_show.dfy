/** The show editing page of `src/pages/admin/EditShow.tsx`: the mapping of
    a stored show onto the form (with the `datetime-local` truncation of its
    date), and the page state that loading, editing and submitting change.
    The API calls are not modelled: their outcomes are parameters. */
module EditShow {
  import opened Wrappers

  // ---------------------------------------------------------------------
  // `String.prototype.split` with a one-character separator.
  // ---------------------------------------------------------------------

  /** `s.split(sep)`: the pieces of `s` between occurrences of `sep`. */
  function Split(s: string, sep: char): (r: seq<string>)
    ensures |r| >= 1
    ensures forall k :: 0 <= k < |r| ==> sep !in r[k]
    ensures Join(r, sep) == s
  {
    if s == [] then [""]
    else
      var rest := Split(s[1..], sep);
      if s[0] == sep then
        [""] + rest
      else
        var r := [[s[0]] + rest[0]] + rest[1..];
        assert r[1..] == rest[1..];
        r
  }

  /** `parts.join(sep)`. */
  function Join(parts: seq<string>, sep: char): string
    requires |parts| >= 1
  {
    if |parts| == 1 then parts[0] else parts[0] + [sep] + Join(parts[1..], sep)
  }

  /** A string without the separator is one piece. */
  lemma {:induction false} SplitWithoutSeparator(s: string, sep: char)
    requires sep !in s
    ensures Split(s, sep) == [s]
    decreases |s|
  {
    if s != [] {
      assert sep !in s[1..] by {
        assert forall c :: c in s[1..] ==> c in s;
      }
      SplitWithoutSeparator(s[1..], sep);
      assert [s[0]] + s[1..] == s;
    }
  }

  /** The pieces of a string whose first separator follows `a`. */
  lemma {:induction false} SplitAtFirst(a: string, b: string, sep: char)
    requires sep !in a
    ensures Split(a + [sep] + b, sep) == [a] + Split(b, sep)
    decreases |a|
  {
    var s := a + [sep] + b;
    if a == [] {
      assert s[0] == sep && s[1..] == b;
    } else {
      assert s[0] == a[0] != sep;
      assert s[1..] == a[1..] + [sep] + b;
      assert sep !in a[1..] by {
        assert forall c :: c in a[1..] ==> c in a;
      }
      var rest := Split(s[1..], sep);
      assert rest == [a[1..]] + Split(b, sep) by {
        SplitAtFirst(a[1..], b, sep);
      }
      assert Split(s, sep) == [[a[0]] + rest[0]] + rest[1..];
      assert [a[0]] + a[1..] == a;
    }
  }

  /** Splitting inverts joining pieces that hold no separator. */
  lemma {:induction false} SplitJoin(parts: seq<string>, sep: char)
    requires |parts| >= 1 && forall k :: 0 <= k < |parts| ==> sep !in parts[k]
    ensures Split(Join(parts, sep), sep) == parts
  {
    if |parts| == 1 {
      SplitWithoutSeparator(parts[0], sep);
    } else {
      SplitJoin(parts[1..], sep);
      SplitAtFirst(parts[0], Join(parts[1..], sep), sep);
      assert [parts[0]] + parts[1..] == parts;
    }
  }

  // ---------------------------------------------------------------------
  // The date of the form (line 43).
  // ---------------------------------------------------------------------

  /** `s.substring(0, n)` for `n >= 0`. */
  function Substring(s: string, n: nat): (r: string)
    ensures |r| == if |s| < n then |s| else n
    ensures r == s[..|r|]
  {
    if |s| <= n then s else s[..n]
  }

  /** What follows the first piece and its separator in a join. */
  lemma JoinAfterFirst(parts: seq<string>, sep: char)
    requires |parts| >= 2
    ensures Join(parts, sep) == parts[0] + [sep] + Join(parts[1..], sep)
    ensures parts[1] == Join(parts[1..], sep)[..|parts[1]|]
  {
    var tail := parts[1..];
    if |tail| > 1 {
      assert Join(tail, sep) == parts[1] + ([sep] + Join(tail[1..], sep));
    }
  }

  /** `d.split('T')[0] + 'T' + d.split('T')[1].substring(0, 5)`. A date with
      no `T` has no second piece, and the expression throws: `None`. What
      it gives otherwise is a prefix of the stored date. */
  function FormatShowDate(d: string): (r: Option<string>)
    ensures r.None? <==> 'T' !in d
    ensures r.Some? ==> |r.value| <= |d| && r.value == d[..|r.value|]
  {
    var parts := Split(d, 'T');
    if |parts| < 2 then
      assert parts[0] == d;
      None
    else
      JoinAfterFirst(parts, 'T');
      var date, rest := parts[0], Join(parts[1..], 'T');
      assert d == date + "T" + rest;
      assert d[|date|] == 'T';
      var time := Substring(parts[1], 5);
      assert time == rest[..|time|];
      assert date + "T" + time == d[..|date| + 1 + |time|];
      Some(date + "T" + time)
  }

  /** The formatted date keeps what precedes the first `T`, the `T`, and at
      most five characters of what follows it up to the next `T`. */
  lemma FormatShowDateShape(date: string, time: string, rest: string)
    requires 'T' !in date && 'T' !in time
    requires rest == [] || rest[0] == 'T'
    ensures FormatShowDate(date + "T" + time + rest) == Some(date + "T" + Substring(time, 5))
  {
    var d := date + "T" + time + rest;
    var parts := Split(d, 'T');
    assert parts == [date] + Split(time + rest, 'T') by {
      assert d == date + ['T'] + (time + rest);
      SplitAtFirst(date, time + rest, 'T');
    }
    assert Split(time + rest, 'T')[0] == time by {
      if rest == [] {
        assert time + rest == time;
        SplitWithoutSeparator(time, 'T');
      } else {
        assert time + rest == time + ['T'] + rest[1..];
        SplitAtFirst(time, rest[1..], 'T');
      }
    }
    assert parts[0] == date && parts[1] == time;
  }

  /** An ISO 8601 timestamp `YYYY-MM-DDTHH:MM:SS.sssZ` loses its seconds,
      fraction and zone: the value format of a `datetime-local` input. */
  lemma FormatIsoTimestamp()
    ensures FormatShowDate("2024-05-17T20:30:00.000Z") == Some("2024-05-17T20:30")
  {
    var date, time := "2024-05-17", "20:30:00.000Z";
    assert 'T' !in date && 'T' !in time;
    assert "2024-05-17T20:30:00.000Z" == date + "T" + time + [];
    FormatShowDateShape(date, time, []);
    assert Substring(time, 5) == "20:30";
    assert date + "T" + "20:30" == "2024-05-17T20:30";
  }

  // ---------------------------------------------------------------------
  // The show and the form.
  // ---------------------------------------------------------------------

  /** A stored show as the API returns it; `None` is an absent `ticket_link`. */
  datatype Show = Show(
    venue: string,
    city: string,
    state_province: string,
    country: string,
    ticket_link: Option<string>,
    show_date: string)

  datatype ShowForm = ShowForm(
    venue: string,
    city: string,
    state_province: string,
    country: string,
    ticket_link: string,
    show_date: string)

  const EmptyForm: ShowForm := ShowForm("", "", "", "", "", "")

  /** The object built by `setFormData` in `fetchShow`; `None` when the date
      expression throws. */
  function ShowToForm(show: Show): (r: Option<ShowForm>)
    ensures r.None? <==> 'T' !in show.show_date
    ensures r.Some? ==>
              r.value.venue == show.venue && r.value.city == show.city
              && r.value.state_province == show.state_province && r.value.country == show.country
              && r.value.ticket_link == (if show.ticket_link.Some? then show.ticket_link.value else "")
              && r.value.show_date == FormatShowDate(show.show_date).value
  {
    match FormatShowDate(show.show_date)
    case None => None
    case Some(date) =>
      Some(ShowForm(show.venue, show.city, show.state_province, show.country,
                    show.ticket_link.GetOr(""), date))
  }

  /** The `name` attributes of the form's inputs. */
  datatype ShowField = Venue | City | StateProvince | Country | ShowDate | TicketLink

  function GetField(f: ShowForm, name: ShowField): string {
    match name
    case Venue => f.venue
    case City => f.city
    case StateProvince => f.state_province
    case Country => f.country
    case ShowDate => f.show_date
    case TicketLink => f.ticket_link
  }

  /** `{...prev, [name]: value}`: the named field alone changes. */
  function SetField(f: ShowForm, name: ShowField, value: string): (r: ShowForm)
    ensures GetField(r, name) == value
    ensures forall other :: other != name ==> GetField(r, other) == GetField(f, other)
  {
    match name
    case Venue => f.(venue := value)
    case City => f.(city := value)
    case StateProvince => f.(state_province := value)
    case Country => f.(country := value)
    case ShowDate => f.(show_date := value)
    case TicketLink => f.(ticket_link := value)
  }

  const LoadError: string := "FAILED TO LOAD SHOW"
  const UpdateError: string := "FAILED TO UPDATE SHOW"

  /** `err.response?.data?.error || 'FAILED TO UPDATE SHOW'`: the server's
      message when it sent a non-empty one, the fixed text otherwise. */
  function SubmitErrorMessage(serverError: Option<string>): (r: string)
    ensures r != ""
    ensures serverError.Some? && serverError.value != "" ==> r == serverError.value
    ensures serverError.None? || serverError.value == "" ==> r == UpdateError
  {
    if serverError.Some? && serverError.value != "" then serverError.value else UpdateError
  }

  /** The state of the `EditShow` component. */
  class EditShowPage {
    var form: ShowForm
    var error: string
    var isLoading: bool
    var isLoadingData: bool

    constructor()
      ensures form == EmptyForm && error == "" && !isLoading && isLoadingData
    {
      form := EmptyForm;
      error := "";
      isLoading := false;
      isLoadingData := true;
    }

    /** The mount effect: `fetchShow` runs only for a non-empty route id.
        `response` is what `api.get` gave: the show, or a rejection. */
    method FetchShow(id: Option<string>, response: Result<Show, string>)
      modifies this
      ensures id.None? || id.value == "" ==>
                form == old(form) && error == old(error) && isLoadingData == old(isLoadingData)
      ensures id.Some? && id.value != "" ==> !isLoadingData
      ensures id.Some? && id.value != "" && response.Success? && ShowToForm(response.value).Some? ==>
                form == ShowToForm(response.value).value && error == old(error)
      ensures id.Some? && id.value != "" && !(response.Success? && ShowToForm(response.value).Some?) ==>
                form == old(form) && error == LoadError
      ensures isLoading == old(isLoading)
    {
      if id.Some? && id.value != "" {
        var loaded := if response.Success? then ShowToForm(response.value) else None;
        if loaded.Some? {
          form := loaded.value;
        } else {
          error := LoadError;
        }
        isLoadingData := false;
      }
    }

    /** `handleInputChange`. */
    method HandleInputChange(name: ShowField, value: string)
      modifies this
      ensures form == SetField(old(form), name, value)
      ensures error == old(error) && isLoading == old(isLoading) && isLoadingData == old(isLoadingData)
    {
      form := SetField(form, name, value);
    }

    /** The synchronous start of `handleSubmit`: the error is cleared and the
        page shows it is submitting, before the request is awaited. */
    method BeginSubmit()
      modifies this
      ensures error == "" && isLoading
      ensures form == old(form) && isLoadingData == old(isLoadingData)
    {
      error := "";
      isLoading := true;
    }

    /** The part of `handleSubmit` after `api.put` settles. `outcome` is
        `Success` when the put resolved, or carries the server's `error`
        field when it was rejected. Returns the route navigated to. */
    method SettleSubmit(outcome: Result<(), Option<string>>) returns (navigateTo: Option<string>)
      modifies this
      ensures outcome.Success? ==>
                navigateTo == Some("/shows") && error == old(error) && isLoading == old(isLoading)
      ensures outcome.Failure? ==>
                navigateTo.None? && error == SubmitErrorMessage(outcome.error) && !isLoading
      ensures form == old(form) && isLoadingData == old(isLoadingData)
    {
      if outcome.Success? {
        navigateTo := Some("/shows");
      } else {
        error := SubmitErrorMessage(outcome.error);
        isLoading := false;
        navigateTo := None;
      }
    }

    /** `handleSubmit` as a whole: the pending state of `BeginSubmit`, then
        the outcome of the put. */
    method HandleSubmit(outcome: Result<(), Option<string>>) returns (navigateTo: Option<string>)
      modifies this
      ensures outcome.Success? ==> navigateTo == Some("/shows") && error == "" && isLoading
      ensures outcome.Failure? ==>
                navigateTo.None? && error == SubmitErrorMessage(outcome.error) && !isLoading
      ensures form == old(form) && isLoadingData == old(isLoadingData)
    {
      BeginSubmit();
      navigateTo := SettleSubmit(outcome);
    }
  }

  /** Loading the page of a show whose date has no `T` reports the load
      error, keeps the empty form, and ends the loading state. */
  method LoadShowWithoutTime(show: Show) returns (page: EditShowPage)
    requires 'T' !in show.show_date
    ensures page.form == EmptyForm && page.error == LoadError && !page.isLoadingData
  {
    page := new EditShowPage();
    page.FetchShow(Some("1"), Success(show));
  }
}
