/**
 * The top-level component of App.tsx as an object: its five state variables
 * are fields, and each event handler is a method that assigns them as the
 * handler's setter calls do.
 */
module AppState {
  import opened Wrappers
  import opened Civil
  import opened IsoDate
  import opened Reminders

  /** `activeView`: which panel the main card shows. */
  datatype View = CalendarView | ListView

  class App {
    var reminders: seq<Reminder>
    var currentDate: Date
    var selectedDate: Option<Date>
    var showCalendar: bool
    var activeView: View

    /** The collection stays sorted by key with no key twice, and every date
        held is a real calendar date. */
    ghost predicate Valid()
      reads this
    {
      SortedByKey(reminders) && ValidDate(currentDate)
      && (selectedDate.Some? ==> ValidDate(selectedDate.value))
    }

    /** The initial state (App.tsx:10-14); `today` stands for the clock read
        that picks the first month shown. */
    constructor (today: Date)
      requires ValidDate(today)
      ensures Valid()
      ensures reminders == [] && currentDate == today && selectedDate == None
      ensures !showCalendar && activeView == CalendarView
      ensures ShouldShowWelcome()
    {
      reminders := [];
      currentDate := today;
      selectedDate := None;
      showCalendar := false;
      activeView := CalendarView;
    }

    /** `shouldShowWelcome` (App.tsx:56): the welcome screen shows only
        while no date has a reminder and the calendar was not asked for. */
    predicate ShouldShowWelcome()
      reads this
      ensures ShouldShowWelcome() ==> RemindersMap() == map[]
    {
      |reminders| == 0 && !showCalendar
    }

    /** `remindersMap` (App.tsx:16-18): every date held has an entry, and
        each entry is a held reminder with that date. */
    function RemindersMap(): (index: map<string, Reminder>)
      reads this
      ensures forall key :: key in index <==> HasKey(reminders, key)
      ensures forall key :: key in index ==> index[key] in reminders && index[key].date == key
    {
      IndexByDate(reminders)
    }

    /** `handleDateSelect` (App.tsx:20-22). */
    method SelectDate(date: Date)
      requires Valid() && ValidDate(date)
      modifies this
      ensures Valid() && selectedDate == Some(date)
      ensures reminders == old(reminders) && currentDate == old(currentDate)
      ensures showCalendar == old(showCalendar) && activeView == old(activeView)
    {
      selectedDate := Some(date);
    }

    /** The reminder the modal shows for the selected date (App.tsx:132):
        the one with the selected date's key, or none. */
    function SelectedReminder(): (r: Option<Reminder>)
      reads this
      requires Valid() && selectedDate.Some?
      ensures r.Some? ==> r.value in reminders && r.value.date == Key(selectedDate.value)
      ensures r.None? <==> !HasKey(reminders, Key(selectedDate.value))
    {
      Find(RemindersMap(), Key(selectedDate.value))
    }

    /**
     * `handleAddReminder` (App.tsx:24-30): a reminder for a date not yet
     * present joins the list in key order; a date already present keeps its
     * reminder. The modal closes either way, and the welcome screen cannot
     * show afterwards.
     */
    method AddReminder(date: Date, icon: string)
      requires Valid() && ValidDate(date)
      modifies this
      ensures Valid() && selectedDate == None
      ensures reminders == Reminders.AddReminder(old(reminders), Reminder(Key(date), icon))
      ensures HasKey(old(reminders), Key(date)) ==> reminders == old(reminders)
      ensures !HasKey(old(reminders), Key(date)) ==>
        |reminders| == |old(reminders)| + 1 && Reminder(Key(date), icon) in reminders
        && forall r :: r in old(reminders) ==> r in reminders
      ensures currentDate == old(currentDate)
      ensures showCalendar == old(showCalendar) && activeView == old(activeView)
      ensures !ShouldShowWelcome()
    {
      var newReminder := Reminder(Key(date), icon);
      if newReminder.date !in RemindersMap() {
        AddAbsent(reminders, newReminder);
        reminders := Reminders.AddReminder(reminders, newReminder);
      }
      selectedDate := None;
      assert reminders != [] by {
        assert HasKey(reminders, newReminder.date);
      }
    }

    /** `handleRemoveReminder` (App.tsx:32-36): every reminder for the date
        goes, the rest stay in order, and the modal closes. */
    method RemoveReminder(date: Date)
      requires Valid() && ValidDate(date)
      modifies this
      ensures Valid() && selectedDate == None
      ensures reminders == RemoveKey(old(reminders), Key(date))
      ensures !HasKey(reminders, Key(date))
      ensures !HasKey(old(reminders), Key(date)) ==> reminders == old(reminders)
      ensures currentDate == old(currentDate)
      ensures showCalendar == old(showCalendar) && activeView == old(activeView)
    {
      var reminderDate := Key(date);
      RemoveKeepsSorted(reminders, reminderDate);
      RemoveContents(reminders, reminderDate);
      if !HasKey(reminders, reminderDate) {
        RemoveAbsent(reminders, reminderDate);
      }
      reminders := RemoveKey(reminders, reminderDate);
      selectedDate := None;
    }

    /** The modal's close action (App.tsx:135). */
    method CloseModal()
      requires Valid()
      modifies this
      ensures Valid() && selectedDate == None
      ensures reminders == old(reminders) && currentDate == old(currentDate)
      ensures showCalendar == old(showCalendar) && activeView == old(activeView)
    {
      selectedDate := None;
    }

    /** `handlePrevMonth` (App.tsx:38-40): day 1 of the month before. */
    method PrevMonth()
      requires Valid()
      modifies this
      ensures Valid() && currentDate == MonthBefore(old(currentDate))
      ensures MonthIndex(currentDate) == MonthIndex(old(currentDate)) - 1 && currentDate.day == 1
      ensures reminders == old(reminders) && selectedDate == old(selectedDate)
      ensures showCalendar == old(showCalendar) && activeView == old(activeView)
    {
      currentDate := MonthBefore(currentDate);
    }

    /** `handleNextMonth` (App.tsx:42-44): day 1 of the month after. */
    method NextMonth()
      requires Valid()
      modifies this
      ensures Valid() && currentDate == MonthAfter(old(currentDate))
      ensures MonthIndex(currentDate) == MonthIndex(old(currentDate)) + 1 && currentDate.day == 1
      ensures reminders == old(reminders) && selectedDate == old(selectedDate)
      ensures showCalendar == old(showCalendar) && activeView == old(activeView)
    {
      currentDate := MonthAfter(currentDate);
    }

    /** `handleShowCalendar` (App.tsx:46-49). */
    method ShowCalendar()
      requires Valid()
      modifies this
      ensures Valid() && showCalendar && activeView == CalendarView
      ensures !ShouldShowWelcome()
      ensures reminders == old(reminders) && currentDate == old(currentDate)
      ensures selectedDate == old(selectedDate)
    {
      showCalendar := true;
      activeView := CalendarView;
    }

    /** `handleReviewReminders` (App.tsx:51-54). */
    method ReviewReminders()
      requires Valid()
      modifies this
      ensures Valid() && showCalendar && activeView == ListView
      ensures !ShouldShowWelcome()
      ensures reminders == old(reminders) && currentDate == old(currentDate)
      ensures selectedDate == old(selectedDate)
    {
      showCalendar := true;
      activeView := ListView;
    }

    /** The view toggle buttons (App.tsx:105, 108). */
    method SetView(view: View)
      requires Valid()
      modifies this
      ensures Valid() && activeView == view
      ensures reminders == old(reminders) && currentDate == old(currentDate)
      ensures selectedDate == old(selectedDate) && showCalendar == old(showCalendar)
    {
      activeView := view;
    }
  }

  /** A user who navigates back and then forward sees day 1 of the month
      they started from. */
  method NavigateBackAndForth(app: App)
    requires app.Valid()
    modifies app
    ensures app.Valid() && app.currentDate == FirstOfMonth(old(app.currentDate))
    ensures app.reminders == old(app.reminders)
  {
    app.PrevMonth();
    app.NextMonth();
    MonthStepsInverse(old(app.currentDate));
  }

  /** The scenario of adding a reminder on 2024-03-15 to an empty app and
      opening that date again: the modal finds that reminder. */
  method AddThenLookUp(today: Date) returns (found: Option<Reminder>)
    requires ValidDate(today)
    ensures found == Some(Reminder(Key(Date(2024, 3, 15)), "brain"))
  {
    var app := new App(today);
    app.AddReminder(Date(2024, 3, 15), "brain");
    app.SelectDate(Date(2024, 3, 15));
    found := app.SelectedReminder();
    assert app.reminders == [Reminder(Key(Date(2024, 3, 15)), "brain")];
  }
}
