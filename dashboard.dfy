/**
 * The dashboard component's state and event handlers, without the rendering:
 * the directory, the filter inputs, the session flag, the three modal flags,
 * the selected record, the login credentials, the add-form draft and its
 * errors. Every handler runs as one atomic step; `handleLogin` therefore sees
 * the state as it was when the button was pressed.
 */
module Dashboard {
  import opened Wrappers
  import opened Students
  import opened AddForm
  import opened Auth

  /** Every piece of state the component and the mock identity provider hold. */
  datatype Snapshot = Snapshot(
    students: seq<Student>,
    selectedCourse: string,
    searchQuery: string,
    isAuthenticated: bool,
    showLoginModal: bool,
    showAddModal: bool,
    showDetailsModal: bool,
    selectedStudent: Option<Student>,
    loginEmail: string,
    loginPassword: string,
    newStudent: Draft,
    formErrors: map<Field, string>,
    currentUser: Option<User>)

  /** The state right after the component mounts, before the directory has loaded. */
  const Initial: Snapshot :=
    Snapshot([], AllCourses, "", false, false, false, false, None, "", "", EmptyDraft, map[], None)

  class App {
    var students: seq<Student>
    var selectedCourse: string
    var searchQuery: string
    var isAuthenticated: bool
    var showLoginModal: bool
    var showAddModal: bool
    var showDetailsModal: bool
    var selectedStudent: Option<Student>
    var loginEmail: string
    var loginPassword: string
    var newStudent: Draft
    var formErrors: map<Field, string>
    /** The identity provider the component signs in with. */
    const auth: AuthMock

    /** What every handler keeps: ids follow insertion order, the component's
        session flag agrees with the provider, and the details modal is only
        ever open with a record selected. */
    ghost predicate Valid()
      reads this, auth
    {
      && IdsSequential(students)
      && (isAuthenticated <==> auth.IsAuthenticated())
      && (showDetailsModal ==> selectedStudent.Some?)
    }

    function State(): Snapshot
      reads this, auth
    {
      Snapshot(students, selectedCourse, searchQuery, isAuthenticated, showLoginModal, showAddModal,
               showDetailsModal, selectedStudent, loginEmail, loginPassword, newStudent, formErrors,
               auth.currentUser)
    }

    constructor ()
      ensures Valid() && fresh(auth)
      ensures State() == Initial
    {
      students := [];
      selectedCourse := AllCourses;
      searchQuery := "";
      isAuthenticated := false;
      showLoginModal := false;
      showAddModal := false;
      showDetailsModal := false;
      selectedStudent := None;
      loginEmail := "";
      loginPassword := "";
      newStudent := EmptyDraft;
      formErrors := map[];
      auth := new AuthMock();
    }

    /** The mount effect: the directory becomes the seed data. */
    method LoadStudents()
      requires Valid()
      modifies this
      ensures Valid()
      ensures State() == old(State()).(students := MockStudentData)
    {
      SeedIdsSequential();
      students := MockStudentData;
    }

    /** The rows the list shows. */
    function FilteredStudents(): (r: seq<Student>)
      reads this
      ensures forall st :: st in r <==> st in students && Matches(st, selectedCourse, searchQuery)
    {
      Filter(students, selectedCourse, searchQuery)
    }

    /** The details modal is rendered only when its flag is set and a record is selected. */
    predicate DetailsVisible()
      reads this
    {
      showDetailsModal && selectedStudent.Some?
    }

    /** Under the invariant the details modal is visible exactly when its flag is set. */
    lemma DetailsVisibleIffFlag()
      requires Valid()
      ensures DetailsVisible() <==> showDetailsModal
    {
    }

    // -------------------------------------------------------------------------
    // Input setters

    method SetSearchQuery(query: string)
      requires Valid()
      modifies this
      ensures Valid()
      ensures State() == old(State()).(searchQuery := query)
    {
      searchQuery := query;
    }

    method SetSelectedCourse(course: string)
      requires Valid()
      modifies this
      ensures Valid()
      ensures State() == old(State()).(selectedCourse := course)
    {
      selectedCourse := course;
    }

    method SetLoginEmail(email: string)
      requires Valid()
      modifies this
      ensures Valid()
      ensures State() == old(State()).(loginEmail := email)
    {
      loginEmail := email;
    }

    method SetLoginPassword(password: string)
      requires Valid()
      modifies this
      ensures Valid()
      ensures State() == old(State()).(loginPassword := password)
    {
      loginPassword := password;
    }

    method SetNewStudent(draft: Draft)
      requires Valid()
      modifies this
      ensures Valid()
      ensures State() == old(State()).(newStudent := draft)
    {
      newStudent := draft;
    }

    // -------------------------------------------------------------------------
    // Add flow

    /** `handleAddStudent`. Every failing field is recorded; if there is any,
        the errors are shown and nothing else changes. Otherwise the draft is
        appended with id `length + 1`, the modal closes, the draft resets and
        the errors clear. */
    method HandleAddStudent()
      requires Valid()
      modifies this
      ensures Valid()
      ensures Validate(old(newStudent)) != map[] ==>
                State() == old(State()).(formErrors := Validate(old(newStudent)))
      ensures Validate(old(newStudent)) == map[] ==>
                State() == old(State()).(
                  students := old(students) + [WithId(old(newStudent), |old(students)| + 1)],
                  showAddModal := false,
                  newStudent := EmptyDraft,
                  formErrors := map[])
    {
      var errors := CollectErrors(newStudent);
      if errors != map[] {
        formErrors := errors;
        return;
      }

      var record := WithId(newStudent, |students| + 1);
      AppendKeepsIdsSequential(students, record);
      students := students + [record];
      showAddModal := false;
      newStudent := EmptyDraft;
      formErrors := map[];
    }

    /** `initiateAddStudent`: the add modal always opens; without a session the
        login modal opens on top of it. */
    method InitiateAddStudent()
      requires Valid()
      modifies this
      ensures Valid()
      ensures State() == old(State()).(showAddModal := true, showLoginModal := old(showLoginModal) || !old(isAuthenticated))
    {
      if isAuthenticated {
        showAddModal := true;
      } else {
        showAddModal := true;
        showLoginModal := true;
      }
    }

    /** The add modal's Cancel button. */
    method CancelAddStudent()
      requires Valid()
      modifies this
      ensures Valid()
      ensures State() == old(State()).(showAddModal := false)
    {
      showAddModal := false;
    }

    // -------------------------------------------------------------------------
    // Details flow

    /** `openStudentDetails`: the record is always selected; with a session the
        details modal opens, without one only the login modal does. */
    method OpenStudentDetails(st: Student)
      requires Valid()
      modifies this
      ensures Valid()
      ensures old(isAuthenticated) ==>
                State() == old(State()).(selectedStudent := Some(st), showDetailsModal := true)
      ensures !old(isAuthenticated) ==>
                State() == old(State()).(selectedStudent := Some(st), showLoginModal := true)
    {
      if isAuthenticated {
        selectedStudent := Some(st);
        showDetailsModal := true;
      } else {
        selectedStudent := Some(st);
        showLoginModal := true;
      }
    }

    /** The details modal's Close button. */
    method CloseStudentDetails()
      requires Valid()
      modifies this
      ensures Valid()
      ensures State() == old(State()).(showDetailsModal := false)
    {
      showDetailsModal := false;
    }

    // -------------------------------------------------------------------------
    // Session

    /** The header's Login button. */
    method OpenLoginModal()
      requires Valid()
      modifies this
      ensures Valid()
      ensures State() == old(State()).(showLoginModal := true)
    {
      showLoginModal := true;
    }

    /** The login modal's Cancel button. */
    method CancelLogin()
      requires Valid()
      modifies this
      ensures Valid()
      ensures State() == old(State()).(showLoginModal := false)
    {
      showLoginModal := false;
    }

    /** `handleLogin`. On success the session starts, the login modal closes,
        the credentials clear, and the details modal opens when a record is
        selected and the add modal was closed; the add modal keeps its state.
        On failure nothing changes. */
    method HandleLogin() returns (ok: bool)
      requires Valid()
      modifies this, auth
      ensures Valid()
      ensures ok <==> old(loginEmail) != [] && old(loginPassword) != []
      ensures ok ==>
                State() == old(State()).(
                  isAuthenticated := true,
                  showLoginModal := false,
                  loginEmail := "",
                  loginPassword := "",
                  showDetailsModal := old(showDetailsModal) || (old(selectedStudent).Some? && !old(showAddModal)),
                  currentUser := Some(SignedInUser(old(loginEmail))))
      ensures !ok ==> State() == old(State())
    {
      // the values the click handler closed over
      var selected, addOpen := selectedStudent, showAddModal;
      var user := auth.Login(loginEmail, loginPassword);
      ok := user.Some?;
      if !ok {
        // the rejected promise lands in the catch block: only an alert
        return;
      }
      isAuthenticated := true;
      showLoginModal := false;
      loginEmail := "";
      loginPassword := "";
      if selected.Some? && !addOpen {
        showDetailsModal := true;
      }
      if addOpen {
        showAddModal := true;
      }
    }

    /** `handleLogout`: the provider forgets the user and the session flag clears;
        the modal flags and the selection stay as they were. */
    method HandleLogout()
      requires Valid()
      modifies this, auth
      ensures Valid()
      ensures State() == old(State()).(isAuthenticated := false, currentUser := None)
    {
      auth.Logout();
      isAuthenticated := false;
    }
  }

  // ---------------------------------------------------------------------------
  // End-to-end runs

  /** An anonymous visitor asks for a record's details: only the login modal
      opens. After a successful login the details modal shows that very record
      and the login modal is gone. */
  method DeferredDetailsRun(r: Student, email: string, password: string) returns (afterClick: Snapshot, app: App)
    requires email != [] && password != []
    ensures afterClick.showLoginModal && !afterClick.showDetailsModal && !afterClick.isAuthenticated
    ensures app.Valid()
    ensures app.isAuthenticated && !app.showLoginModal
    ensures app.DetailsVisible() && app.selectedStudent == Some(r)
  {
    app := new App();
    app.LoadStudents();
    app.OpenStudentDetails(r);
    afterClick := app.State();
    app.SetLoginEmail(email);
    app.SetLoginPassword(password);
    var ok := app.HandleLogin();
  }

  /** An anonymous visitor presses Add Student: the login and add modals are
      open together. Logging in closes the login modal, keeps the add modal
      and does not open the details modal. */
  method DeferredAddRun(email: string, password: string) returns (afterClick: Snapshot, app: App)
    requires email != [] && password != []
    ensures afterClick.showLoginModal && afterClick.showAddModal && !afterClick.isAuthenticated
    ensures app.Valid()
    ensures app.isAuthenticated && !app.showLoginModal && app.showAddModal && !app.showDetailsModal
  {
    app := new App();
    app.LoadStudents();
    app.InitiateAddStudent();
    afterClick := app.State();
    app.SetLoginEmail(email);
    app.SetLoginPassword(password);
    var ok := app.HandleLogin();
  }

  /** A login with an empty password is refused and leaves the session as it was. */
  method EmptyPasswordRun(email: string) returns (app: App)
    ensures app.Valid()
    ensures !app.isAuthenticated && app.auth.currentUser == None && app.loginEmail == email
  {
    app := new App();
    app.OpenLoginModal();
    app.SetLoginEmail(email);
    var ok := app.HandleLogin();
  }

  /** The selection is never cleared, so a later login from the header, not
      prompted by any details request, opens the details of the record viewed
      before the logout. */
  method StaleSelectionRun(r: Student, email: string, password: string) returns (app: App)
    requires email != [] && password != []
    ensures app.Valid()
    ensures app.DetailsVisible() && app.selectedStudent == Some(r)
  {
    app := new App();
    app.SetLoginEmail(email);
    app.SetLoginPassword(password);
    var ok := app.HandleLogin();
    app.OpenStudentDetails(r);
    app.CloseStudentDetails();
    app.HandleLogout();
    app.OpenLoginModal();
    app.SetLoginEmail(email);
    app.SetLoginPassword(password);
    ok := app.HandleLogin();
  }

  /** A draft submitted against the loaded directory by a visitor who never
      signed in (the login modal is still open): a valid one lands last with
      id 7 and every id stays distinct; an invalid one leaves the directory
      alone and keeps the form open with its errors. */
  method AddToSeedRun(d: Draft) returns (app: App)
    ensures app.Valid()
    ensures !app.isAuthenticated && app.showLoginModal
    ensures Validate(d) == map[] ==>
              && app.students == MockStudentData + [WithId(d, 7)]
              && !app.showAddModal && app.newStudent == EmptyDraft && app.formErrors == map[]
    ensures Validate(d) != map[] ==>
              && app.students == MockStudentData
              && app.showAddModal && app.newStudent == d && app.formErrors == Validate(d)
    ensures forall i, j | 0 <= i < j < |app.students| :: app.students[i].id != app.students[j].id
  {
    app := new App();
    app.LoadStudents();
    app.InitiateAddStudent();
    app.SetNewStudent(d);
    app.HandleAddStudent();
    SequentialIdsDistinct(app.students);
  }
}
