/** The authoring helpers of `src/lib/projectUtils.js`: the next free id,
    the validator and the template for a new project. The validator and
    the template work on plain JavaScript objects, so a project object is
    modelled as a map from property to value: a missing key reads as
    `undefined`, and `{...defaults, ...overrides}` is map union. The
    catalog that `getNextProjectId` reads and the current month that
    `createProjectTemplate` reads from the clock are parameters. */
module ProjectUtils {
  import opened Wrappers
  import opened ArrayOps
  import opened SlugGen
  import ProjectKinds
  import LibProject

  // ---------------------------------------------------------------------
  // getNextProjectId

  /** `Math.max(...xs)` for a non-empty `xs`. */
  function Max(xs: seq<int>): (m: int)
    requires |xs| > 0
    ensures exists i :: 0 <= i < |xs| && xs[i] == m
    ensures forall i :: 0 <= i < |xs| ==> xs[i] <= m
  {
    if |xs| == 1 then xs[0]
    else
      var m := Max(xs[1..]);
      if xs[0] >= m then xs[0] else m
  }

  /** `getNextProjectId()`: one more than the largest id, so different
      from every id in the catalog. An empty catalog makes `Math.max()`
      return `-Infinity`, and the result is `-Infinity` too: `None`. */
  function NextProjectId(catalog: seq<LibProject.Project>): (r: Option<int>)
    ensures r.None? <==> |catalog| == 0
    ensures r.Some? ==> forall i :: 0 <= i < |catalog| ==> catalog[i].id < r.value
    ensures r.Some? ==> exists i :: 0 <= i < |catalog| && catalog[i].id == r.value - 1
  {
    var ids := Map(catalog, (p: LibProject.Project) => p.id);
    if |ids| == 0 then None else Some(Max(ids) + 1)
  }

  /** With ids numbered 1, 2, ... in order, the next id is one past the
      number of records. */
  lemma {:induction false} NextIdOfNumbered(catalog: seq<LibProject.Project>)
    requires |catalog| > 0
    requires forall i :: 0 <= i < |catalog| ==> catalog[i].id == i + 1
    ensures NextProjectId(catalog) == Some(|catalog| + 1)
  {
    var r := NextProjectId(catalog);
    assert catalog[|catalog| - 1].id == |catalog|;
  }

  /** The literal catalog's next id is 4. */
  lemma NextIdOfProjects()
    ensures NextProjectId(LibProject.Projects) == Some(4)
  {
    LibProject.ProjectsIdsSequential();
    NextIdOfNumbered(LibProject.Projects);
  }

  // ---------------------------------------------------------------------
  // Project objects

  /** The values the properties of a project object hold. */
  datatype Value =
    | Undefined
    | Null
    | Bool(b: bool)
    | Num(n: int)
    | NegInfinity  // `-Infinity`: `Math.max()` of no ids, plus one
    | Str(s: string)
    | Arr(items: seq<string>)

  /** The properties of a project record. */
  datatype Field =
    | Id | Slug | Title | ShortDescription | LongDescription | Technologies
    | Category | Status | Featured | Image | DemoUrl | GithubUrl
    | StartDate | EndDate | TeamSize | Role | Highlights | Challenges

  type ProjectObject = map<Field, Value>

  /** `project.f`: a missing property reads as `undefined`. */
  function Get(p: ProjectObject, f: Field): Value
  {
    if f in p then p[f] else Undefined
  }

  /** JavaScript truthiness: `undefined`, `null`, `false`, `0` and `""`
      are falsy; every array, even an empty one, is truthy. */
  predicate Truthy(v: Value)
  {
    match v
    case Undefined => false
    case Null => false
    case Bool(b) => b
    case Num(n) => n != 0
    case NegInfinity => true
    case Str(s) => s != ""
    case Arr(_) => true
  }

  /** `xs.join(sep)`. */
  function Join(xs: seq<string>, sep: string): string
  {
    if |xs| == 0 then ""
    else if |xs| == 1 then xs[0]
    else xs[0] + sep + Join(xs[1..], sep)
  }

  // ---------------------------------------------------------------------
  // validateProject

  /** The messages `validateProject` can report. */
  datatype Message =
    | TitleRequired | ShortDescriptionRequired | LongDescriptionRequired | TechnologyRequired
    | CategoryRequired | StatusRequired | StartDateRequired | RoleRequired | TeamSizeInvalid
    | InvalidCategory | InvalidStatus | StartDateFormat | EndDateFormat

  const ValidCategories: seq<string> := ["web-app", "mobile-app", "desktop-app", "api", "library", "other"]
  const ValidStatuses: seq<string> := ["completed", "in-progress", "planned"]

  /** The words of each message. The two list messages end with the
      accepted names joined by ", ". */
  function Text(m: Message): string
  {
    match m
    case TitleRequired => "Title is required"
    case ShortDescriptionRequired => "Short description is required"
    case LongDescriptionRequired => "Long description is required"
    case TechnologyRequired => "At least one technology is required"
    case CategoryRequired => "Category is required"
    case StatusRequired => "Status is required"
    case StartDateRequired => "Start date is required"
    case RoleRequired => "Role is required"
    case TeamSizeInvalid => "Team size must be a number >= 1"
    case InvalidCategory =>
      "Invalid category. Must be one of: web-app, mobile-app, desktop-app, api, library, other"
    case InvalidStatus => "Invalid status. Must be one of: completed, in-progress, planned"
    case StartDateFormat => "Start date must be in YYYY-MM format"
    case EndDateFormat => "End date must be in YYYY-MM format"
  }

  /** `!v || v.length === 0`: only strings and arrays have a `length`. */
  predicate NoTechnologies(v: Value)
  {
    !Truthy(v) || (v.Str? && |v.s| == 0) || (v.Arr? && |v.items| == 0)
  }

  /** `typeof v !== "number" || v < 1`. */
  predicate BadTeamSize(v: Value)
  {
    match v
    case Num(n) => n < 1
    case NegInfinity => true
    case _ => true
  }

  /** `names.includes(v)`, which compares with `===`. */
  predicate IsOneOf(v: Value, names: seq<string>)
  {
    v.Str? && v.s in names
  }

  predicate IsDigit(c: char)
  {
    '0' <= c <= '9'
  }

  /** `/^\d{4}-\d{2}$/` on a string: four digits, a hyphen, two digits and
      nothing else. The month is not range-checked. */
  predicate IsYearMonth(s: string)
  {
    |s| == 7 && IsDigit(s[0]) && IsDigit(s[1]) && IsDigit(s[2]) && IsDigit(s[3]) &&
    s[4] == '-' && IsDigit(s[5]) && IsDigit(s[6])
  }

  /** `dateRegex.test(v)`, which tests the string form of `v`: an array
      reads as its elements joined with commas; the string forms of
      `undefined`, `null`, booleans and numbers never have the shape. */
  predicate TestYearMonth(v: Value)
  {
    match v
    case Str(s) => IsYearMonth(s)
    case Arr(xs) => IsYearMonth(Join(xs, ","))
    case _ => false
  }

  /** One check: its message when it fails, nothing when it passes. */
  function Check(failed: bool, message: Message): seq<Message>
  {
    if failed then [message] else []
  }

  /** The messages of the thirteen checks, in the order they run. */
  const Messages: seq<Message> :=
    [TitleRequired, ShortDescriptionRequired, LongDescriptionRequired, TechnologyRequired,
     CategoryRequired, StatusRequired, StartDateRequired, RoleRequired, TeamSizeInvalid,
     InvalidCategory, InvalidStatus, StartDateFormat, EndDateFormat]

  /** Whether each check fails on `p`, in the order they run: nine
      presence checks, then four checks on values, each made only when the
      property is present. */
  function Failures(p: ProjectObject): (f: seq<bool>)
    ensures |f| == |Messages|
  {
    [ !Truthy(Get(p, Title)),
      !Truthy(Get(p, ShortDescription)),
      !Truthy(Get(p, LongDescription)),
      NoTechnologies(Get(p, Technologies)),
      !Truthy(Get(p, Category)),
      !Truthy(Get(p, Status)),
      !Truthy(Get(p, StartDate)),
      !Truthy(Get(p, Role)),
      BadTeamSize(Get(p, TeamSize)),
      Truthy(Get(p, Category)) && !IsOneOf(Get(p, Category), ValidCategories),
      Truthy(Get(p, Status)) && !IsOneOf(Get(p, Status), ValidStatuses),
      Truthy(Get(p, StartDate)) && !TestYearMonth(Get(p, StartDate)),
      Truthy(Get(p, EndDate)) && !TestYearMonth(Get(p, EndDate)) ]
  }

  /** The messages of those of the first `k` checks in `ms` whose entry
      in `failed` is set, in order. */
  function Reported(failed: seq<bool>, ms: seq<Message>, k: nat): seq<Message>
    requires |failed| == |ms| && k <= |ms|
  {
    if k == 0 then [] else Reported(failed, ms, k - 1) + Check(failed[k - 1], ms[k - 1])
  }

  /** What `validateProject` reports for `p`. */
  function Errors(p: ProjectObject): seq<Message>
  {
    Reported(Failures(p), Messages, |Messages|)
  }

  /** What a valid project object is, stated field by field. */
  predicate MeetsSchema(p: ProjectObject)
  {
    && Truthy(Get(p, Title))
    && Truthy(Get(p, ShortDescription))
    && Truthy(Get(p, LongDescription))
    && !NoTechnologies(Get(p, Technologies))
    && IsOneOf(Get(p, Category), ValidCategories)
    && IsOneOf(Get(p, Status), ValidStatuses)
    && TestYearMonth(Get(p, StartDate))
    && (Truthy(Get(p, EndDate)) ==> TestYearMonth(Get(p, EndDate)))
    && Truthy(Get(p, Role))
    && Get(p, TeamSize).Num? && Get(p, TeamSize).n >= 1
  }

  /** `if (failed) errors.push(message)`. */
  method PushIf(errors: seq<Message>, failed: bool, message: Message) returns (r: seq<Message>)
    ensures r == errors + Check(failed, message)
  {
    r := errors;
    if failed {
      r := r + [message];
    }
  }

  /** The result of `validateProject`. */
  datatype Validation = Validation(isValid: bool, errors: seq<Message>)

  /** `validateProject(project)`: the project is valid when no check
      fails, which is when it meets the schema. */
  method ValidateProject(p: ProjectObject) returns (result: Validation)
    ensures result.errors == Errors(p)
    ensures result.isValid <==> result.errors == []
    ensures result.isValid <==> MeetsSchema(p)
  {
    var errors := RunRequiredChecks(p);
    errors := RunValueChecks(p, errors);
    SchemaExactlyWhenNoErrors(p);
    result := Validation(|errors| == 0, errors);
  }

  /** The nine presence checks of `validateProject`, run in turn, each
      pushing its message when it fails. */
  method RunRequiredChecks(p: ProjectObject) returns (errors: seq<Message>)
    ensures errors == Reported(Failures(p), Messages, 9)
  {
    errors := [];
    errors := PushIf(errors, !Truthy(Get(p, Title)), TitleRequired);
    errors := PushIf(errors, !Truthy(Get(p, ShortDescription)), ShortDescriptionRequired);
    errors := PushIf(errors, !Truthy(Get(p, LongDescription)), LongDescriptionRequired);
    errors := PushIf(errors, NoTechnologies(Get(p, Technologies)), TechnologyRequired);
    errors := PushIf(errors, !Truthy(Get(p, Category)), CategoryRequired);
    errors := PushIf(errors, !Truthy(Get(p, Status)), StatusRequired);
    errors := PushIf(errors, !Truthy(Get(p, StartDate)), StartDateRequired);
    errors := PushIf(errors, !Truthy(Get(p, Role)), RoleRequired);
    errors := PushIf(errors, BadTeamSize(Get(p, TeamSize)), TeamSizeInvalid);
    RequiredChecksUnrolled(p);
  }

  /** The four checks on the values of the properties that are present,
      run after the presence checks. */
  method RunValueChecks(p: ProjectObject, errors: seq<Message>) returns (r: seq<Message>)
    requires errors == Reported(Failures(p), Messages, 9)
    ensures r == Errors(p)
  {
    r := errors;
    r := PushIf(r, Truthy(Get(p, Category)) && !IsOneOf(Get(p, Category), ValidCategories),
                InvalidCategory);
    r := PushIf(r, Truthy(Get(p, Status)) && !IsOneOf(Get(p, Status), ValidStatuses),
                InvalidStatus);
    r := PushIf(r, Truthy(Get(p, StartDate)) && !TestYearMonth(Get(p, StartDate)),
                StartDateFormat);
    r := PushIf(r, Truthy(Get(p, EndDate)) && !TestYearMonth(Get(p, EndDate)),
                EndDateFormat);
    ValueChecksUnrolled(p);
  }

  /** The first nine checks report the concatenation of what each reports. */
  lemma ReportedFirstNine(f: seq<bool>, m: seq<Message>)
    requires |f| == |m| == 13
    ensures Reported(f, m, 9) ==
      [] + Check(f[0], m[0]) + Check(f[1], m[1]) + Check(f[2], m[2])
      + Check(f[3], m[3]) + Check(f[4], m[4]) + Check(f[5], m[5])
      + Check(f[6], m[6]) + Check(f[7], m[7]) + Check(f[8], m[8])
  {
    assert Reported(f, m, 1) ==
      [] + Check(f[0], m[0]);
    assert Reported(f, m, 2) ==
      [] + Check(f[0], m[0]) + Check(f[1], m[1]);
    assert Reported(f, m, 3) ==
      [] + Check(f[0], m[0]) + Check(f[1], m[1]) + Check(f[2], m[2]);
    assert Reported(f, m, 4) ==
      [] + Check(f[0], m[0]) + Check(f[1], m[1]) + Check(f[2], m[2])
      + Check(f[3], m[3]);
    assert Reported(f, m, 5) ==
      [] + Check(f[0], m[0]) + Check(f[1], m[1]) + Check(f[2], m[2])
      + Check(f[3], m[3]) + Check(f[4], m[4]);
    assert Reported(f, m, 6) ==
      [] + Check(f[0], m[0]) + Check(f[1], m[1]) + Check(f[2], m[2])
      + Check(f[3], m[3]) + Check(f[4], m[4]) + Check(f[5], m[5]);
    assert Reported(f, m, 7) ==
      [] + Check(f[0], m[0]) + Check(f[1], m[1]) + Check(f[2], m[2])
      + Check(f[3], m[3]) + Check(f[4], m[4]) + Check(f[5], m[5])
      + Check(f[6], m[6]);
    assert Reported(f, m, 8) ==
      [] + Check(f[0], m[0]) + Check(f[1], m[1]) + Check(f[2], m[2])
      + Check(f[3], m[3]) + Check(f[4], m[4]) + Check(f[5], m[5])
      + Check(f[6], m[6]) + Check(f[7], m[7]);
  }

  /** The last four checks append what each of them reports. */
  lemma ReportedLastFour(f: seq<bool>, m: seq<Message>)
    requires |f| == |m| == 13
    ensures Reported(f, m, 13) ==
      Reported(f, m, 9) + Check(f[9], m[9]) + Check(f[10], m[10])
      + Check(f[11], m[11]) + Check(f[12], m[12])
  {
    assert Reported(f, m, 11) == Reported(f, m, 9) + Check(f[9], m[9]) + Check(f[10], m[10]);
  }

  /** What the presence checks report, check by check. */
  lemma RequiredChecksUnrolled(p: ProjectObject)
    ensures Reported(Failures(p), Messages, 9) == []
      + Check(!Truthy(Get(p, Title)), TitleRequired)
      + Check(!Truthy(Get(p, ShortDescription)), ShortDescriptionRequired)
      + Check(!Truthy(Get(p, LongDescription)), LongDescriptionRequired)
      + Check(NoTechnologies(Get(p, Technologies)), TechnologyRequired)
      + Check(!Truthy(Get(p, Category)), CategoryRequired)
      + Check(!Truthy(Get(p, Status)), StatusRequired)
      + Check(!Truthy(Get(p, StartDate)), StartDateRequired)
      + Check(!Truthy(Get(p, Role)), RoleRequired)
      + Check(BadTeamSize(Get(p, TeamSize)), TeamSizeInvalid)
  {
    ReportedFirstNine(Failures(p), Messages);
  }

  /** What the value checks append, check by check. */
  lemma ValueChecksUnrolled(p: ProjectObject)
    ensures Errors(p) == Reported(Failures(p), Messages, 9)
      + Check(Truthy(Get(p, Category)) && !IsOneOf(Get(p, Category), ValidCategories),
              InvalidCategory)
      + Check(Truthy(Get(p, Status)) && !IsOneOf(Get(p, Status), ValidStatuses),
              InvalidStatus)
      + Check(Truthy(Get(p, StartDate)) && !TestYearMonth(Get(p, StartDate)),
              StartDateFormat)
      + Check(Truthy(Get(p, EndDate)) && !TestYearMonth(Get(p, EndDate)),
              EndDateFormat)
  {
    ReportedLastFour(Failures(p), Messages);
  }

  /** Nothing is reported exactly when none of the first `k` checks fails. */
  lemma {:induction false} ReportedEmpty(failed: seq<bool>, ms: seq<Message>, k: nat)
    requires |failed| == |ms| && k <= |ms|
    ensures Reported(failed, ms, k) == [] <==> forall i :: 0 <= i < k ==> !failed[i]
  {
    if k > 0 {
      ReportedEmpty(failed, ms, k - 1);
    }
  }

  /** A project object is valid exactly when it meets the schema. */
  lemma SchemaExactlyWhenNoErrors(p: ProjectObject)
    ensures Errors(p) == [] <==> MeetsSchema(p)
  {
    var f := Failures(p);
    ReportedEmpty(f, Messages, |Messages|);
    assert (forall i :: 0 <= i < |f| ==> !f[i]) <==>
      !f[0] && !f[1] && !f[2] && !f[3] && !f[4] && !f[5] && !f[6] && !f[7] && !f[8] &&
      !f[9] && !f[10] && !f[11] && !f[12];
    assert forall v :: IsOneOf(v, ValidCategories) ==> Truthy(v);
    assert forall v :: IsOneOf(v, ValidStatuses) ==> Truthy(v);
    assert forall v :: TestYearMonth(v) ==> Truthy(v);
  }

  /** An object with no properties fails exactly the nine presence checks,
      in order, and none of the value checks. */
  lemma EmptyObjectErrors()
    ensures Errors(map[]) == Messages[..9]
  {
    var f, m := Failures(map[]), Messages;
    assert Reported(f, m, 1) == m[..1];
    assert Reported(f, m, 2) == m[..2];
    assert Reported(f, m, 3) == m[..3];
    assert Reported(f, m, 4) == m[..4];
    assert Reported(f, m, 5) == m[..5];
    assert Reported(f, m, 6) == m[..6];
    assert Reported(f, m, 7) == m[..7];
    assert Reported(f, m, 8) == m[..8];
    assert Reported(f, m, 9) == m[..9];
    assert Reported(f, m, 10) == m[..9];
    assert Reported(f, m, 11) == m[..9];
    assert Reported(f, m, 12) == m[..9];
  }

  /** With distinct messages, a report over the first `k` checks holds the
      message of one of them exactly when it failed, holds nothing else and
      holds each message at most once. */
  lemma {:induction false} ReportedMembers(failed: seq<bool>, ms: seq<Message>, k: nat)
    requires |failed| == |ms| && k <= |ms| && NoDuplicates(ms)
    ensures forall i :: 0 <= i < k ==> (ms[i] in Reported(failed, ms, k) <==> failed[i])
    ensures forall m :: m in Reported(failed, ms, k) ==> m in ms[..k]
    ensures NoDuplicates(Reported(failed, ms, k))
  {
    if k > 0 {
      var n := k - 1;
      ReportedMembers(failed, ms, n);
      assert ms[n] !in ms[..n] by {
        forall j | 0 <= j < n ensures ms[..n][j] != ms[n] {
          assert ms[..n][j] == ms[j];
        }
      }
      assert ms[..n] <= ms[..k];
      forall i | 0 <= i < k ensures ms[i] in Reported(failed, ms, k) <==> failed[i] {
        if i < n {
          assert ms[i] != ms[n];
        }
      }
    }
  }

  /** `validateProject` reports the message of a check exactly when the
      check fails, no other message, and none twice. */
  lemma ErrorMessages(p: ProjectObject)
    ensures forall i :: 0 <= i < |Messages| ==> (Messages[i] in Errors(p) <==> Failures(p)[i])
    ensures NoDuplicates(Errors(p))
  {
    ReportedMembers(Failures(p), Messages, |Messages|);
  }

  /** A category, status or start date that is missing is not also
      checked for its value: `validateProject` never reports both. */
  lemma {:induction false} MissingOrWrong(p: ProjectObject)
    ensures !(CategoryRequired in Errors(p) && InvalidCategory in Errors(p))
    ensures !(StatusRequired in Errors(p) && InvalidStatus in Errors(p))
    ensures !(StartDateRequired in Errors(p) && StartDateFormat in Errors(p))
  {
    var f, m := Failures(p), Messages;
    ErrorMessages(p);
    assert m[4] == CategoryRequired && m[9] == InvalidCategory && !(f[4] && f[9]);
    assert m[5] == StatusRequired && m[10] == InvalidStatus && !(f[5] && f[10]);
    assert m[6] == StartDateRequired && m[11] == StartDateFormat && !(f[6] && f[11]);
  }

  /** One for a failed check, zero for a passed one. */
  function Ord(failed: bool): nat
  {
    if failed then 1 else 0
  }

  /** How many of the first `k` checks fail. */
  function CountFailed(failed: seq<bool>, k: nat): nat
    requires k <= |failed|
  {
    if k == 0 then 0 else CountFailed(failed, k - 1) + Ord(failed[k - 1])
  }

  /** A report holds one message per failed check. */
  lemma {:induction false} ReportedLength(failed: seq<bool>, ms: seq<Message>, k: nat)
    requires |failed| == |ms| && k <= |ms|
    ensures |Reported(failed, ms, k)| == CountFailed(failed, k)
  {
    if k > 0 {
      ReportedLength(failed, ms, k - 1);
    }
  }

  /** At most `k` of the first `k` checks fail. */
  lemma {:induction false} CountFailedBound(failed: seq<bool>, k: nat)
    requires k <= |failed|
    ensures CountFailed(failed, k) <= k
  {
    if k > 0 {
      CountFailedBound(failed, k - 1);
    }
  }

  /** The count of checks five to nine, added one by one. */
  lemma CountFailedMiddle(f: seq<bool>)
    requires |f| == 13
    ensures CountFailed(f, 9) == CountFailed(f, 4) + Ord(f[4]) + Ord(f[5]) + Ord(f[6]) + Ord(f[7]) + Ord(f[8])
  {
    assert CountFailed(f, 5) == CountFailed(f, 4) + Ord(f[4]);
    assert CountFailed(f, 6) == CountFailed(f, 5) + Ord(f[5]);
    assert CountFailed(f, 7) == CountFailed(f, 6) + Ord(f[6]);
    assert CountFailed(f, 8) == CountFailed(f, 7) + Ord(f[7]);
    assert CountFailed(f, 9) == CountFailed(f, 8) + Ord(f[8]);
  }

  /** The count of the last four checks, added one by one. */
  lemma CountFailedLast(f: seq<bool>)
    requires |f| == 13
    ensures CountFailed(f, 13) == CountFailed(f, 9) + Ord(f[9]) + Ord(f[10]) + Ord(f[11]) + Ord(f[12])
  {
    assert CountFailed(f, 10) == CountFailed(f, 9) + Ord(f[9]);
    assert CountFailed(f, 11) == CountFailed(f, 10) + Ord(f[10]);
    assert CountFailed(f, 12) == CountFailed(f, 11) + Ord(f[11]);
    assert CountFailed(f, 13) == CountFailed(f, 12) + Ord(f[12]);
  }

  /** Of two checks that never both fail, at most one fails. */
  lemma ExclusivePair(a: bool, b: bool)
    requires !(a && b)
    ensures Ord(a) + Ord(b) <= 1
  {
  }

  /** Of thirteen checks in three exclusive pairs, at most ten fail. */
  lemma ThreeExclusivePairs(f: seq<bool>)
    requires |f| == 13
    requires !(f[4] && f[9]) && !(f[5] && f[10]) && !(f[6] && f[11])
    ensures CountFailed(f, 13) <= 10
  {
    CountFailedBound(f, 4);
    CountFailedMiddle(f);
    CountFailedLast(f);
    ExclusivePair(f[4], f[9]);
    ExclusivePair(f[5], f[10]);
    ExclusivePair(f[6], f[11]);
    ExclusivePair(f[7], false);
    ExclusivePair(f[8], false);
    ExclusivePair(f[12], false);
  }

  /** `validateProject` reports at most ten messages: of each of the three
      missing-or-wrong pairs at most one. */
  lemma AtMostTenErrors(p: ProjectObject)
    ensures |Errors(p)| <= 10
  {
    var f := Failures(p);
    ReportedLength(f, Messages, |Messages|);
    ThreeExclusivePairs(f);
  }

  /** The accepted category and status strings are exactly the names of
      the members of the typed unions. */
  lemma ListsAreTheUnions()
    ensures forall c: ProjectKinds.Category :: ProjectKinds.CategoryName(c) in ValidCategories
    ensures forall s :: s in ValidCategories ==> exists c: ProjectKinds.Category :: ProjectKinds.CategoryName(c) == s
    ensures forall t: ProjectKinds.Status :: ProjectKinds.StatusName(t) in ValidStatuses
    ensures forall s :: s in ValidStatuses ==> exists t: ProjectKinds.Status :: ProjectKinds.StatusName(t) == s
  {
    forall c: ProjectKinds.Category ensures ProjectKinds.CategoryName(c) in ValidCategories {
      match c
      case WebApp => assert ValidCategories[0] == "web-app";
      case MobileApp => assert ValidCategories[1] == "mobile-app";
      case DesktopApp => assert ValidCategories[2] == "desktop-app";
      case Api => assert ValidCategories[3] == "api";
      case Library => assert ValidCategories[4] == "library";
      case Other => assert ValidCategories[5] == "other";
    }
    forall t: ProjectKinds.Status ensures ProjectKinds.StatusName(t) in ValidStatuses {
      match t
      case Completed => assert ValidStatuses[0] == "completed";
      case InProgress => assert ValidStatuses[1] == "in-progress";
      case Planned => assert ValidStatuses[2] == "planned";
    }
    assert ProjectKinds.CategoryName(ProjectKinds.WebApp) == ValidCategories[0];
    assert ProjectKinds.CategoryName(ProjectKinds.MobileApp) == ValidCategories[1];
    assert ProjectKinds.CategoryName(ProjectKinds.DesktopApp) == ValidCategories[2];
    assert ProjectKinds.CategoryName(ProjectKinds.Api) == ValidCategories[3];
    assert ProjectKinds.CategoryName(ProjectKinds.Library) == ValidCategories[4];
    assert ProjectKinds.CategoryName(ProjectKinds.Other) == ValidCategories[5];
    assert ProjectKinds.StatusName(ProjectKinds.Completed) == ValidStatuses[0];
    assert ProjectKinds.StatusName(ProjectKinds.InProgress) == ValidStatuses[1];
    assert ProjectKinds.StatusName(ProjectKinds.Planned) == ValidStatuses[2];
  }

  /** The date check looks at the shape only: a thirteenth month passes,
      a one-digit month or a full date does not. */
  lemma DateShapeOnly()
    ensures TestYearMonth(Str("2024-13"))
    ensures !TestYearMonth(Str("2024-1"))
    ensures !TestYearMonth(Str("2024-01-15"))
    ensures TestYearMonth(Arr(["2024-01"]))
    ensures !TestYearMonth(Num(202401))
  {
    assert |"2024-1"| == 6;
    assert |"2024-01-15"| == 10;
  }

  // ---------------------------------------------------------------------
  // Typed records as objects

  function OptionalString(v: Option<string>): Value
  {
    match v
    case None => Undefined
    case Some(s) => Str(s)
  }

  /** Property `f` of a record of the typed catalog, as the value it holds
      at run time; an absent optional property reads as `undefined`. */
  function FieldOf(r: LibProject.Project, f: Field): Value
  {
    match f
    case Id => Num(r.id)
    case Slug => Str(r.slug)
    case Title => Str(r.title)
    case ShortDescription => Str(r.shortDescription)
    case LongDescription => Str(r.longDescription)
    case Technologies => Arr(r.technologies)
    case Category => Str(ProjectKinds.CategoryName(r.category))
    case Status => Str(ProjectKinds.StatusName(r.status))
    case Featured => Bool(r.featured)
    case Image => OptionalString(r.image)
    case DemoUrl => OptionalString(r.demoUrl)
    case GithubUrl => OptionalString(r.githubUrl)
    case StartDate => Str(r.startDate)
    case EndDate => OptionalString(r.endDate)
    case TeamSize => Num(r.teamSize)
    case Role => Str(r.role)
    case Highlights => Arr(r.highlights)
    case Challenges => match r.challenges case None => Undefined case Some(cs) => Arr(cs)
  }

  /** A record of the typed catalog as the plain object it is at run time:
      an absent optional property is no key of the object at all. */
  function ToObject(r: LibProject.Project): (o: ProjectObject)
    ensures forall f :: Get(o, f) == FieldOf(r, f)
    ensures forall f :: f in o <==> FieldOf(r, f) != Undefined
  {
    map f: Field | FieldOf(r, f) != Undefined :: FieldOf(r, f)
  }

  /** What the typed record needs beyond its types to pass the validator. */
  predicate WellFilled(r: LibProject.Project)
  {
    && r.title != "" && r.shortDescription != "" && r.longDescription != ""
    && r.technologies != [] && r.role != "" && r.teamSize >= 1
    && IsYearMonth(r.startDate)
    && (r.endDate.Some? && r.endDate.value != "" ==> IsYearMonth(r.endDate.value))
  }

  /** A typed record meets the schema exactly when its texts are non-empty,
      it lists a technology, its start date and any non-empty end date have
      the `YYYY-MM` shape and its team has a member: its category and its
      status always do. */
  lemma TypedRecordSchema(r: LibProject.Project)
    ensures MeetsSchema(ToObject(r)) <==> WellFilled(r)
  {
    var o := ToObject(r);
    ObjectFields(r);
    ListsAreTheUnions();
    assert IsOneOf(Get(o, Category), ValidCategories);
    assert IsOneOf(Get(o, Status), ValidStatuses);
    assert TestYearMonth(Get(o, StartDate)) <==> IsYearMonth(r.startDate);
  }

  /** The properties the validator reads, in a typed record's object. */
  lemma ObjectFields(r: LibProject.Project)
    ensures Get(ToObject(r), Title) == Str(r.title)
    ensures Get(ToObject(r), ShortDescription) == Str(r.shortDescription)
    ensures Get(ToObject(r), LongDescription) == Str(r.longDescription)
    ensures Get(ToObject(r), Technologies) == Arr(r.technologies)
    ensures Get(ToObject(r), Category) == Str(ProjectKinds.CategoryName(r.category))
    ensures Get(ToObject(r), Status) == Str(ProjectKinds.StatusName(r.status))
    ensures Get(ToObject(r), StartDate) == Str(r.startDate)
    ensures Get(ToObject(r), EndDate) == OptionalString(r.endDate)
    ensures Get(ToObject(r), Role) == Str(r.role)
    ensures Get(ToObject(r), TeamSize) == Num(r.teamSize)
  {
    var o := ToObject(r);
    assert forall f :: Get(o, f) == FieldOf(r, f);
  }

  /** A typed record passes the validator exactly when it is well filled. */
  lemma TypedRecordValid(r: LibProject.Project)
    ensures Errors(ToObject(r)) == [] <==> WellFilled(r)
  {
    TypedRecordSchema(r);
    SchemaExactlyWhenNoErrors(ToObject(r));
  }

  // ---------------------------------------------------------------------
  // createProjectTemplate

  /** `createProjectTemplate` throws when it must make a slug from a title
      that is not a string: `title.toLowerCase` is not a function then. */
  datatype TemplateError = TitleNotAString

  /** `getNextProjectId()` as a property value: `-Infinity` for an empty
      catalog. */
  function IdValue(next: Option<int>): Value
  {
    match next
    case None => NegInfinity
    case Some(n) => Num(n)
  }

  /** The default value of property `f`, given the id and the current
      month. */
  function Default(f: Field, id: Value, month: string): Value
  {
    match f
    case Id => id
    case Slug => Str("")
    case Title => Str("")
    case ShortDescription => Str("")
    case LongDescription => Str("")
    case Technologies => Arr([])
    case Category => Str("web-app")
    case Status => Str("planned")
    case Featured => Bool(false)
    case Image => Null
    case DemoUrl => Null
    case GithubUrl => Null
    case StartDate => Str(month)
    case EndDate => Null
    case TeamSize => Num(1)
    case Role => Str("Full-Stack Developer")
    case Highlights => Arr([])
    case Challenges => Arr([])
  }

  /** The default template: every property set to its default. */
  function Defaults(id: Value, month: string): (d: ProjectObject)
    ensures forall f :: f in d && d[f] == Default(f, id, month)
  {
    map f: Field | true :: Default(f, id, month)
  }

  /** `{ ...defaults, ...overrides }`. */
  function Merged(id: Value, overrides: ProjectObject, month: string): ProjectObject
  {
    Defaults(id, month) + overrides
  }

  /** `if (template.title && !template.slug) template.slug =
      generateSlug(template.title)`. */
  function FillSlug(t: ProjectObject): Result<ProjectObject, TemplateError>
  {
    if Truthy(Get(t, Title)) && !Truthy(Get(t, Slug)) then
      match Get(t, Title)
      case Str(title) => Success(t[Slug := Str(GenerateSlug(title))])
      case _ => Failure(TitleNotAString)
    else
      Success(t)
  }

  /** What `createProjectTemplate(overrides)` returns or throws, with the
      catalog and the current month (`YYYY-MM`) as parameters. */
  function Template(catalog: seq<LibProject.Project>, overrides: ProjectObject, month: string)
    : Result<ProjectObject, TemplateError>
  {
    FillSlug(Merged(IdValue(NextProjectId(catalog)), overrides, month))
  }

  /** `createProjectTemplate(overrides)`: spreads the overrides over the
      defaults, then fills in the slug from the title when there is a
      title and no slug. */
  method CreateProjectTemplate(catalog: seq<LibProject.Project>, overrides: ProjectObject, month: string)
    returns (r: Result<ProjectObject, TemplateError>)
    ensures r == Template(catalog, overrides, month)
  {
    var id := NextProjectId(catalog);
    var template := Defaults(IdValue(id), month) + overrides;
    if Truthy(Get(template, Title)) && !Truthy(Get(template, Slug)) {
      match Get(template, Title)
      case Str(title) =>
        template := template[Slug := Str(GenerateSlug(title))];
      case _ =>
        return Failure(TitleNotAString);
    }
    r := Success(template);
  }

  /** Every property given in the overrides replaces the default, every
      other keeps it. */
  lemma OverridesWin(id: Value, overrides: ProjectObject, month: string)
    ensures forall f :: f in overrides ==> Get(Merged(id, overrides, month), f) == overrides[f]
    ensures forall f :: f !in overrides ==> Get(Merged(id, overrides, month), f) == Default(f, id, month)
  {
  }

  /** Filling in the slug throws exactly when it must make a slug from a
      title that is not a string. */
  lemma FillSlugThrows(t: ProjectObject)
    ensures FillSlug(t).Failure? <==>
      Truthy(Get(t, Title)) && !Get(t, Title).Str? && !Truthy(Get(t, Slug))
  {
  }

  /** Filling in the slug changes no other property. */
  lemma FillSlugKeepsRest(t: ProjectObject)
    requires FillSlug(t).Success?
    ensures forall f :: f != Slug ==> Get(FillSlug(t).value, f) == Get(t, f)
  {
  }

  /** With a non-empty string title and no slug, the slug is made from the
      title. */
  lemma SlugFromTitle(t: ProjectObject, title: string)
    requires Get(t, Title) == Str(title) && title != "" && !Truthy(Get(t, Slug))
    ensures FillSlug(t) == Success(t[Slug := Str(GenerateSlug(title))])
    ensures IsSlug(GenerateSlug(title))
  {
  }

  /** Without a title, or with a slug, the object is left as it is. */
  lemma SlugLeftAlone(t: ProjectObject)
    requires !Truthy(Get(t, Title)) || Truthy(Get(t, Slug))
    ensures FillSlug(t) == Success(t)
  {
  }

  /** An explicit non-empty slug is kept unchanged. */
  lemma ExplicitSlugKept(catalog: seq<LibProject.Project>, overrides: ProjectObject, month: string, slug: string)
    requires Slug in overrides && overrides[Slug] == Str(slug) && slug != ""
    ensures Template(catalog, overrides, month) ==
      Success(Merged(IdValue(NextProjectId(catalog)), overrides, month))
    ensures Get(Template(catalog, overrides, month).value, Slug) == Str(slug)
  {
    var id := IdValue(NextProjectId(catalog));
    OverridesWin(id, overrides, month);
    SlugLeftAlone(Merged(id, overrides, month));
  }

  /** A template made from a title alone gets its slug from the title and
      every default otherwise. */
  lemma TitleOnlyTemplate(catalog: seq<LibProject.Project>, month: string, title: string)
    requires title != ""
    ensures Template(catalog, map[Title := Str(title)], month).Success?
    ensures Get(Template(catalog, map[Title := Str(title)], month).value, Slug) == Str(GenerateSlug(title))
    ensures Get(Template(catalog, map[Title := Str(title)], month).value, Title) == Str(title)
    ensures forall f :: f != Slug && f != Title ==>
      Get(Template(catalog, map[Title := Str(title)], month).value, f) ==
      Default(f, IdValue(NextProjectId(catalog)), month)
  {
    var id := IdValue(NextProjectId(catalog));
    var overrides := map[Title := Str(title)];
    var t := Merged(id, overrides, month);
    OverridesWin(id, overrides, month);
    SlugFromTitle(t, title);
    FillSlugKeepsRest(t);
  }

  /** Without overrides the template is the defaults: it has no title, so
      no slug is made. */
  lemma DefaultTemplate(catalog: seq<LibProject.Project>, month: string)
    ensures Template(catalog, map[], month) == Success(Defaults(IdValue(NextProjectId(catalog)), month))
  {
    var d := Defaults(IdValue(NextProjectId(catalog)), month);
    assert d + map[] == d;
  }

  /** The template's id is new: it is above every id of a non-empty
      catalog. */
  lemma TemplateIdIsNew(catalog: seq<LibProject.Project>, overrides: ProjectObject, month: string)
    requires |catalog| > 0 && Id !in overrides
    requires Template(catalog, overrides, month).Success?
    ensures Get(Template(catalog, overrides, month).value, Id).Num?
    ensures forall i :: 0 <= i < |catalog| ==> catalog[i].id < Get(Template(catalog, overrides, month).value, Id).n
  {
    var id := IdValue(NextProjectId(catalog));
    OverridesWin(id, overrides, month);
    FillSlugKeepsRest(Merged(id, overrides, month));
  }
}
