/** The closed string unions the TypeScript records use for a project's
    status and category, with the string each member is spelled as. */
module ProjectKinds {

  /** `'completed' | 'in-progress' | 'planned'`. */
  datatype Status = Completed | InProgress | Planned

  function StatusName(s: Status): string
  {
    match s
    case Completed => "completed"
    case InProgress => "in-progress"
    case Planned => "planned"
  }

  /** `'web-app' | 'mobile-app' | 'desktop-app' | 'api' | 'library' | 'other'`. */
  datatype Category = WebApp | MobileApp | DesktopApp | Api | Library | Other

  function CategoryName(c: Category): string
  {
    match c
    case WebApp => "web-app"
    case MobileApp => "mobile-app"
    case DesktopApp => "desktop-app"
    case Api => "api"
    case Library => "library"
    case Other => "other"
  }
}
