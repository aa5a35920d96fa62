/** The page state of the app (App.tsx): `generatedCodes` is null while the
    setup form is shown and holds the generated list while the results
    screen is shown. The form hands its codes to `handleGenerate`; the
    results screen's Back button calls `handleBack`. Scrolling the window
    to the top is left out. */
module App {
  import opened Outcomes
  import opened Types
  import SetupForm

  /** `generatedCodes`: None stands for null. */
  type State = Option<seq<GeneratedQrCode>>

  /** `useState(null)`: the app opens on the setup form. */
  const Initial: State := None

  /** What the page renders. */
  datatype Screen = Setup | Results(codes: seq<GeneratedQrCode>)

  /** The user's actions: submitting the setup form, or Back on the
      results screen. */
  datatype Event = SubmitForm(form: SetupForm.Form) | Back

  /** `generatedCodes ? <ResultsScreen/> : <SetupForm/>`: any list is
      truthy, so the results screen is shown exactly when a list is held,
      and it is given that list. */
  function Render(s: State): (r: Screen)
    ensures r.Results? <==> s.Some?
    ensures r.Results? ==> r.codes == s.value
  {
    match s
    case None => Setup
    case Some(codes) => Results(codes)
  }

  function HandleGenerate(codes: seq<GeneratedQrCode>): State {
    Some(codes)
  }

  function HandleBack(): State {
    None
  }

  /** The state after one action. A form submission only counts on the
      setup screen (the form is not rendered otherwise) and only when the
      form calls `onGenerate`; Back only exists on the results screen. */
  function Step(s: State, e: Event): (r: State)
    ensures Valid(s) ==> Valid(r)
    ensures e.Back? ==> Render(r) == Setup
    ensures e.SubmitForm? && s.Some? ==> r == s
    ensures e.SubmitForm? && s.None? ==>
              (r.Some? <==> SetupForm.HandleGenerate(e.form).Ok?) &&
              (r.Some? ==> r.value == SetupForm.HandleGenerate(e.form).value)
  {
    match e
    case Back => if s.Some? then HandleBack() else s
    case SubmitForm(form) =>
      if s.Some? then s
      else
        match SetupForm.Submit(form)
        case None => s
        case Some(codes) => HandleGenerate(codes)
  }

  /** The state after a sequence of actions, applied in order. */
  function Run(s: State, events: seq<Event>): State
    decreases |events|
  {
    if events == [] then s
    else Step(Run(s, events[..|events| - 1]), events[|events| - 1])
  }

  /** The results screen never shows an empty list. */
  predicate Valid(s: State) {
    s.Some? ==> |s.value| > 0
  }

  /** Every sequence of actions from a valid state ends in a valid state;
      in particular, from the opening state. */
  lemma {:induction false} RunValid(s: State, events: seq<Event>)
    requires Valid(s)
    ensures Valid(Run(s, events))
  {
    if events != [] {
      RunValid(s, events[..|events| - 1]);
    }
  }

  /** Whatever the results screen shows, starting from the setup form, is
      exactly the output of one successful form submission among the
      actions taken. */
  lemma {:induction false} ShownCodesWereGenerated(events: seq<Event>)
    ensures var s := Run(Initial, events);
            s.Some? ==> exists i :: 0 <= i < |events| && events[i].SubmitForm? &&
                          SetupForm.HandleGenerate(events[i].form) == Ok(s.value)
  {
    if events != [] {
      var n := |events| - 1;
      var prev := Run(Initial, events[..n]);
      ShownCodesWereGenerated(events[..n]);
      var s := Run(Initial, events);
      if s.Some? {
        if prev.Some? && s == prev {
          var i :| 0 <= i < n && events[..n][i].SubmitForm? &&
                   SetupForm.HandleGenerate(events[..n][i].form) == Ok(prev.value);
          assert events[i] == events[..n][i];
        } else {
          assert events[n].SubmitForm? && SetupForm.HandleGenerate(events[n].form) == Ok(s.value);
        }
      }
    }
  }

  /** After Back the setup form is shown again, whatever came before. */
  lemma BackReturnsToSetup(s: State, events: seq<Event>)
    ensures Render(Run(s, events + [Back])) == Setup
  {
    assert (events + [Back])[..|events|] == events;
  }
}
