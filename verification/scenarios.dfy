/** End-to-end runs of the controllers on a fresh store. */
module Scenarios {
  import opened Wrappers
  import opened Dates
  import opened Params
  import opened Storage
  import opened Http
  import opened Query
  import UserController
  import ExerciseController

  const Alice: IdParam := Given("1", true, Some(1))
  const RunForm: ExerciseForm := ExerciseForm(Some("run"), Number(30.0), Some("2024-01-05"))
  const Jan5: Instant := Instant(Date(2024, 1, 5), 0)
  const WithAlice: Store := Store([User(1, "alice")], [], 2, 1)
  const WithRun: Store := Store([User(1, "alice")], [Exercise(1, 1, "alice", Jan5, 30.0, "run")], 2, 2)

  /**
   * Create "alice", log a 30-minute run on 2024-01-05 for her, and read the log back; an append for
   * the unknown id 999 is a 404 that writes nothing.
   */
  lemma AliceLogsARun(now: Instant)
    ensures UserController.CreateUser(Empty, Some("alice")) == Handled(Ok(UserCreated("alice", 1)), WithAlice)
    ensures ExerciseController.AddExercise(WithAlice, Alice, RunForm, now)
            == Handled(Ok(ExerciseAdded("1", "alice", Jan5, 30.0, "run")), WithRun)
    ensures ExerciseController.GetExerciseLogs(WithRun, Alice, LogQuery(None, None, None)).response
            == Ok(ExerciseLog(1, "alice", 1, [LogEntry("run", 30.0, Jan5)]))
    ensures ExerciseController.AddExercise(WithRun, Given("999", true, Some(999)), RunForm, now)
            == Handled(NotFound("User with ID 999 not found"), WithRun)
  {
    AddRun(now);
    ReadRun();
    AddForUnknownUser(now);
  }

  lemma AddRun(now: Instant)
    ensures ExerciseController.AddExercise(WithAlice, Alice, RunForm, now)
            == Handled(Ok(ExerciseAdded("1", "alice", Jan5, 30.0, "run")), WithRun)
  {
    SampleDateParses();
    SampleDescriptionGiven();
    assert ExerciseController.FormValid(RunForm);
    assert FindUser(WithAlice.users, Some(1)) == Some(User(1, "alice"));
    assert EntryDate(RunForm.date, now) == Jan5;
  }

  lemma ReadRun()
    ensures ExerciseController.GetExerciseLogs(WithRun, Alice, LogQuery(None, None, None)).response
            == Ok(ExerciseLog(1, "alice", 1, [LogEntry("run", 30.0, Jan5)]))
  {
    assert FindUser(WithRun.users, Some(1)) == Some(User(1, "alice"));
    assert Where(WithRun.exercises, 1, None, None) == WithRun.exercises;
    assert Entries(WithRun.exercises) == [LogEntry("run", 30.0, Jan5)];
    assert OrderByDate([LogEntry("run", 30.0, Jan5)]) == [LogEntry("run", 30.0, Jan5)];
  }

  lemma AddForUnknownUser(now: Instant)
    ensures ExerciseController.AddExercise(WithRun, Given("999", true, Some(999)), RunForm, now)
            == Handled(NotFound("User with ID 999 not found"), WithRun)
  {
    SampleDateParses();
    SampleDescriptionGiven();
    assert ExerciseController.FormValid(RunForm);
    assert FindUser(WithRun.users, Some(999)) == None;
  }

  lemma SampleDateParses()
    ensures ParseDate("2024-01-05") == Some(Date(2024, 1, 5))
  {
    var s := "2024-01-05";
    assert s[..4] == "2024" && s[5..7] == "01" && s[8..] == "05";
    assert "2024"[..3] == "202" && "202"[..2] == "20" && "20"[..1] == "2" && "2"[..0] == "";
    assert DigitsValue("2024") == 2024;
    assert "01"[..1] == "0" && "0"[..0] == "";
    assert DigitsValue("01") == 1;
    assert "05"[..1] == "0";
    assert DigitsValue("05") == 5;
  }

  lemma SampleDescriptionGiven()
    ensures DescriptionGiven(Some("run"))
  {
    assert !IsWhitespace("run"[0]);
  }
}
