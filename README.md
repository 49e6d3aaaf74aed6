# Portfolio project catalog, modelled in Dafny

This project models the logic of a personal portfolio site. The rest of
the site only renders pages. The modelled parts are:

- **The two project catalogs.** `src/data/projects.ts` holds seven records
  whose category is a free string. `src/lib/project.ts` holds three records
  whose category and status are closed unions. Each catalog comes with
  lookup by slug and filters on `featured`, status and category. The second
  also lists the distinct categories and projects the slugs.
- **The authoring helpers of `src/lib/projectUtils.js`:**
  - `generateSlug`, the slug pipeline;
  - `getNextProjectId`, which returns one more than the largest id;
  - `validateProject`, which collects error messages;
  - `createProjectTemplate`, which spreads overrides over defaults and then
    derives a slug from the title.

Modules:

- `Wrappers` holds `Option` and `Result`.
- `ArrayOps` holds `find`, `filter`, `map` and `Array.from(new Set(...))` as
  recursive functions on sequences.
- `ProjectKinds` holds the status and category unions.
- `DataProjects` and `LibProject` model the two catalogs.
- `SlugGen` models `generateSlug`.
- `ProjectUtils` models the other three helpers.

How the JavaScript is represented:

- **Catalog arguments.** The query helpers read a module constant. Here they
  take the catalog as an argument, and the literal data is the constant
  `Projects`. Facts about the literal data are separate lemmas.
- **Plain objects.** `validateProject` and `createProjectTemplate` work on
  plain JavaScript objects. A plain object is a `map<Field, Value>`:
  - a missing key reads as `Undefined`;
  - truthiness follows JavaScript;
  - `{...defaults, ...overrides}` is map union.
- **Imperative code.** Two helpers update state step by step, so they are
  methods proved against specification functions:
  - `validateProject` pushes messages one check at a time
    (`ProjectUtils.ValidateProject` against `ProjectUtils.Errors`);
  - `createProjectTemplate` assigns the slug in place
    (`ProjectUtils.CreateProjectTemplate` against `ProjectUtils.Template`).

Where the code and its usual description disagree, the model follows the
code:

- **Edge hyphens in slugs.** `.trim()` runs only after whitespace has been
  turned into hyphens. So a title with leading or trailing spaces gets a
  slug with an edge hyphen: `"  Multiple   Spaces  "` becomes
  `"-multiple-spaces-"`, not `"multiple-spaces"`.
  `SlugGen.LeadingWhitespaceHyphen` and `SlugGen.TrailingWhitespaceHyphen`
  prove this for every title.
- **Empty catalog.** `getNextProjectId` has no fallback for an empty catalog.
  `Math.max()` of nothing is `-Infinity`, and `-Infinity + 1` is still
  `-Infinity`. The model returns `None` for this case rather than `1`.
  `createProjectTemplate` then stores `-Infinity` as the id.

## Model

| member | source | states |
|---|---|---|
| SlugGen.GenerateSlug | src/lib/projectUtils.js:15-22 | the slug contains only `a`-`z`, `0`-`9` and `-`, never two hyphens in a row, and is no longer than the title |
| SlugGen.ReplaceRuns | src/lib/projectUtils.js:19-20 | replacing runs of a class never lengthens the text; every output character is a hyphen or an input character outside the class; with hyphen as the class no two hyphens are adjacent |
| SlugGen.SlugFixedPoints | src/lib/projectUtils.js:15-22 | a string is its own slug exactly when it already has the slug shape |
| SlugGen.GenerateSlugIdempotent | src/lib/projectUtils.js:15-22 | making a slug of a slug gives the same slug |
| SlugGen.LeadingWhitespaceHyphen | src/lib/projectUtils.js:19-21 | a title that starts with whitespace gets a slug that starts with a hyphen, because the trim comes last |
| SlugGen.TrailingWhitespaceHyphen | src/lib/projectUtils.js:19-21 | a title that ends with whitespace gets a slug that ends with a hyphen |
| SlugGen.LoneSpaceSlug | src/lib/projectUtils.js:16-21 | the slug of `" "` is `"-"` |
| SlugGen.SpacedLetterSlug | src/lib/projectUtils.js:16-21 | the slug of `" X "` is `"-x-"`: it is lower-cased and keeps a hyphen at each end |
| SlugGen.SpecialIgnored | src/lib/projectUtils.js:17-18 | characters that are neither upper-case letters nor in `[a-z0-9\s-]` do not change the slug, wherever they stand in the title |
| SlugGen.SpacedWordsSlug | src/lib/projectUtils.js:15-22 | two words of letters and digits, with whitespace before, between and after them, give `-word-word-`: each word lower-cased, each whitespace run one hyphen, the edge hyphens kept |
| SlugGen.ThreeWordsSlug | src/lib/projectUtils.js:15-22 | three words of letters and digits separated by whitespace runs give the lower-cased words joined by single hyphens |
| SlugGen.MultipleSpacesSlug | src/lib/projectUtils.js:15-22 | the slug of `"  Multiple   Spaces  "` is `"-multiple-spaces-"` |
| SlugGen.AwesomeProjectSlug | src/lib/projectUtils.js:15-22 | the slug of `"My Awesome Project!!"` is `"my-awesome-project"` |
| ProjectUtils.NextProjectId | src/lib/projectUtils.js:28-30 | the next id is absent (`-Infinity`) exactly for an empty catalog; otherwise it exceeds every id and is one more than some id |
| ProjectUtils.NextIdOfNumbered | src/lib/projectUtils.js:28-30 | for a catalog numbered 1, 2, ... in order, the next id is the record count plus one |
| ProjectUtils.NextIdOfProjects | src/lib/projectUtils.js:28-30 | the next id after the typed literal catalog is 4 |
| ProjectUtils.PushIf | src/lib/projectUtils.js:41 | a conditional push appends the message exactly when the check failed |
| ProjectUtils.ValidateProject | src/lib/projectUtils.js:37-89 | the errors are the messages of the failed checks in check order; `isValid` holds exactly when there are no errors, and exactly when the object meets the schema |
| ProjectUtils.RunRequiredChecks | src/lib/projectUtils.js:40-53 | the nine presence checks report the messages of those that fail, in order |
| ProjectUtils.RunValueChecks | src/lib/projectUtils.js:55-83 | the category, status and date checks append their failures to the presence report, which gives the full report |
| ProjectUtils.SchemaExactlyWhenNoErrors | src/lib/projectUtils.js:41-88 | nothing is reported exactly when the object has every required text, a technology, an accepted category and status, a `YYYY-MM` start date, a well-formed end date if one is given, a role and a team size of at least 1 |
| ProjectUtils.ReportedEmpty | src/lib/projectUtils.js:85-88 | a report is empty exactly when none of its checks failed |
| ProjectUtils.EmptyObjectErrors | src/lib/projectUtils.js:40-53 | an empty object gets exactly nine errors: title, short description, long description, technology, category, status, start date, role and team size, in that order |
| ProjectUtils.ReportedMembers | src/lib/projectUtils.js:41-83 | with distinct messages, a report holds a check's message exactly when that check failed, holds no other message and holds none twice |
| ProjectUtils.ErrorMessages | src/lib/projectUtils.js:41-83 | `validateProject` reports each message exactly when its check fails, and never twice |
| ProjectUtils.MissingOrWrong | src/lib/projectUtils.js:64-83 | the missing message and the invalid message for category, for status or for start date are never both reported |
| ProjectUtils.ReportedLength | src/lib/projectUtils.js:41-83 | a report holds one message per failed check |
| ProjectUtils.CountFailedBound | src/lib/projectUtils.js:41-83 | at most `k` of `k` checks fail |
| ProjectUtils.ThreeExclusivePairs | src/lib/projectUtils.js:64-83 | with three pairs of checks that never fail together, at most ten of the thirteen checks fail |
| ProjectUtils.AtMostTenErrors | src/lib/projectUtils.js:37-89 | `validateProject` reports at most ten messages |
| ProjectUtils.ListsAreTheUnions | src/lib/projectUtils.js:56-74 | the accepted category and status strings are exactly the names of the typed unions' members: every member's name is accepted, and every accepted string names a member |
| ProjectUtils.DateShapeOnly | src/lib/projectUtils.js:77-83 | the date check looks only at the shape: `"2024-13"` passes; `"2024-1"`, `"2024-01-15"` and a number fail; an array holding one date passes through its string form |
| ProjectUtils.ToObject | src/lib/project.ts:4-23 | a typed record read as a plain object yields each property's run-time value; an absent optional property is no key of the object and reads as `undefined` |
| ProjectUtils.ObjectFields | src/lib/project.ts:4-23 | the properties the validator reads keep their values when a typed record becomes a plain object |
| ProjectUtils.TypedRecordSchema | src/lib/projectUtils.js:41-83 | a typed record meets the schema exactly when its texts are non-empty, it lists a technology, its dates have the `YYYY-MM` shape and its team has a member; its category and status always pass |
| ProjectUtils.TypedRecordValid | src/lib/projectUtils.js:37-89 | a typed record passes `validateProject` exactly when it is well filled |
| ProjectUtils.Defaults | src/lib/projectUtils.js:97-115 | the default template sets every property to its default: empty texts and lists, category `web-app`, status `planned`, not featured, null URLs and image, the current month, team size 1, role `Full-Stack Developer` |
| ProjectUtils.CreateProjectTemplate | src/lib/projectUtils.js:96-125 | the method's result is the overrides spread over the defaults, with the slug filled in from the title, or the error thrown for a non-string title |
| ProjectUtils.OverridesWin | src/lib/projectUtils.js:97-117 | every overridden property takes the override's value; every other property keeps its default |
| ProjectUtils.FillSlugThrows | src/lib/projectUtils.js:120-122 | the template throws exactly when it must make a slug from a truthy title that is not a string |
| ProjectUtils.FillSlugKeepsRest | src/lib/projectUtils.js:120-122 | filling in the slug changes no other property |
| ProjectUtils.SlugFromTitle | src/lib/projectUtils.js:120-122 | with a non-empty string title and a falsy slug, the slug becomes the slug of the title |
| ProjectUtils.SlugLeftAlone | src/lib/projectUtils.js:120-122 | with a falsy title or a truthy slug, the object is returned unchanged |
| ProjectUtils.ExplicitSlugKept | src/lib/projectUtils.js:96-124 | an explicit non-empty slug is kept, and the template is the plain merge |
| ProjectUtils.TitleOnlyTemplate | src/lib/projectUtils.js:96-124 | overriding only the title gives its slug, keeps the title and keeps every other default |
| ProjectUtils.DefaultTemplate | src/lib/projectUtils.js:96-124 | without overrides the template is exactly the defaults |
| ProjectUtils.TemplateIdIsNew | src/lib/projectUtils.js:98 | for a non-empty catalog, a template without an overridden id gets an id above every catalog id |
| DataProjects.GetProjectBySlug | src/data/projects.ts:136-138 | the result is the first record whose slug is exactly the argument, and it is `null` exactly when no record has that slug |
| DataProjects.GetAllProjects | src/data/projects.ts:144-146 | the result is the catalog itself, every record in catalog order |
| DataProjects.GetFeaturedProjects | src/data/projects.ts:140-142 | a subsequence of the catalog holding exactly the records whose `featured` is true; an absent flag counts as not featured |
| DataProjects.FeaturedCount | src/data/projects.ts:140-142 | each featured record occurs in the result as often as in the catalog; no other record occurs |
| DataProjects.GetProjectsByStatus | src/data/projects.ts:148-150 | a subsequence of the catalog holding exactly the records with the given status |
| DataProjects.StatusPartition | src/data/projects.ts:148-150 | the three status results partition the catalog: together they hold every record as often as the catalog does, and each record is in the result of its own status only |
| DataProjects.GetProjectsByCategory | src/data/projects.ts:152-154 | a subsequence of the catalog holding exactly the records with the given category; empty exactly when no record has it |
| DataProjects.CategoryCount | src/data/projects.ts:152-154 | each record of the category occurs in the result as often as in the catalog; no other record occurs |
| DataProjects.LookupOwnSlug | src/data/projects.ts:136-138 | with unique slugs, looking a record up by its own slug returns that record |
| DataProjects.ProjectsIdsSequential | src/data/projects.ts:20-133 | the literal data has seven records with ids 1 to 7 in order |
| DataProjects.ProjectsUniqueSlugs | src/data/projects.ts:20-133 | the literal data's slugs are pairwise distinct |
| DataProjects.ProjectsLookupBySlug | src/data/projects.ts:20-138 | each literal record is found by its own slug |
| LibProject.GetProjectBySlug | src/lib/project.ts:108-110 | the result is the first record whose slug is exactly the argument, and it is `undefined` exactly when no record has that slug |
| LibProject.GetFeaturedProjects | src/lib/project.ts:113-115 | a subsequence of the catalog holding exactly the featured records |
| LibProject.FeaturedCount | src/lib/project.ts:113-115 | each featured record occurs in the result as often as in the catalog; no other record occurs |
| LibProject.GetProjectsByCategory | src/lib/project.ts:118-120 | a subsequence of the catalog holding exactly the records of the given category; empty exactly when no record has it |
| LibProject.CategoryCount | src/lib/project.ts:118-120 | each record of the category occurs in the result as often as in the catalog; no other record occurs |
| LibProject.GetProjectsByStatus | src/lib/project.ts:123-125 | a subsequence of the catalog holding exactly the records with the given status |
| LibProject.StatusCount | src/lib/project.ts:123-125 | each record with the status occurs in the result as often as in the catalog; no other record occurs |
| LibProject.CategoryColumn | src/lib/project.ts:129 | the i-th entry is the i-th record's category |
| LibProject.GetProjectCategories | src/lib/project.ts:128-131 | no category is listed twice, and a category is listed exactly when some record has it |
| LibProject.CategoriesInFirstUseOrder | src/lib/project.ts:128-131 | categories are listed in the order in which the catalog first uses them |
| ArrayOps.Distinct | src/lib/project.ts:130 | `Array.from(new Set(s))` holds each element of `s` exactly once and nothing else |
| ArrayOps.DistinctFirstAppearance | src/lib/project.ts:130 | the set's elements come out in the order of their first occurrence in `s` |
| LibProject.GetAllProjectSlugs | src/lib/project.ts:134-136 | same length as the catalog; the i-th slug is the i-th record's slug |
| LibProject.SlugsResolve | src/lib/project.ts:108-136 | every listed slug resolves to a record; with unique slugs, the i-th listed slug resolves to the i-th record |
| LibProject.ProjectsIdsSequential | src/lib/project.ts:26-105 | the literal data has three records with ids 1 to 3 in order |
| LibProject.ProjectsUniqueSlugs | src/lib/project.ts:26-105 | the literal data's slugs are pairwise distinct |
| LibProject.ProjectsLookupBySlug | src/lib/project.ts:26-110 | each literal record is found by its own slug |
| LibProject.ProjectsCategories | src/lib/project.ts:26-131 | every literal record is a web app, so the category list is `['web-app']` |

## Left out

- Page components, routing, animation, the navigation bar and the CV download button are left out. They only render or touch the DOM.
- The contact form is left out because it is network I/O.
- `src/lib/projects`, which `projectUtils.js` imports, is not part of this model. `getNextProjectId` and `createProjectTemplate` take a catalog of `src/lib/project.ts` records as a parameter, and only the ids are read.
- The clock read in `createProjectTemplate` (`new Date().toISOString().slice(0, 7)`, a UTC month) is a `month` parameter.
- `generateSlug` is modelled on ASCII only:
  - only `A`-`Z` are lower-cased;
  - `\s` and `.trim()` cover space, tab, line feed, carriage return, vertical tab and form feed;
  - Unicode case mapping and Unicode whitespace are not modelled.
- Numbers are integers. `NaN`, fractional team sizes and ids, and number-to-string conversion are not modelled. A number never passes the date check.
- The only non-string property values modelled are `undefined`, `null`, booleans, integers, `-Infinity` and arrays of strings. Arrays of other values and nested objects are not modelled.
- Messages are the `Message` datatype. `ProjectUtils.Text` gives their wording, and no property about the wording is proved.
- `getAllProjects` hands out the catalog array itself, so a caller could mutate it. `DataProjects.GetAllProjects` returns a value, and that aliasing is not modelled: no query can modify the catalog, because every query is a function on values.
- The `projectExamples` and `addProjectInstructions` constants are left out. They are documentation only.
- `validateProject(null)` and `validateProject(undefined)` throw a `TypeError` when the first check reads `project.title`. A `ProjectObject` always stands for an object, so that throw is not modelled.
- The spread of `overrides` in `createProjectTemplate` also copies properties outside the eighteen template properties. A `ProjectObject` has keys from `Field` only, so such extra properties are not modelled.
- Whether the records of the typed literal catalog pass `validateProject` is not proved. `ProjectUtils.TypedRecordValid` states the condition for any typed record.
- ProjectUtils.CreateProjectTemplate: the in-place slug assignment is modelled as a map update of a local variable, so aliasing of the returned object is not modelled.
