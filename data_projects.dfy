/** The project catalog of `src/data/projects.ts`: the record type, the
    constant list of projects and the query helpers over it. The helpers
    read a module constant in the source; here they take the catalog as an
    argument, and `Projects` is the constant they are applied to. */
module DataProjects {
  import opened Wrappers
  import opened ArrayOps
  import opened ProjectKinds

  /** A project record. Optional properties (`role?`, `teamSize?`,
      `featured?`) and the nullable URLs are `Option`s: `None` is
      `undefined` or `null`. */
  datatype Project = Project(
    id: int,
    slug: string,
    title: string,
    shortDescription: string,
    longDescription: string,
    technologies: seq<string>,
    status: Status,
    category: string,
    role: Option<string>,
    teamSize: Option<int>,
    demoUrl: Option<string>,
    githubUrl: Option<string>,
    image: string,
    featured: Option<bool>)

  /** `project.featured` is truthy: absent counts as not featured. */
  predicate IsFeatured(p: Project)
  {
    p.featured == Some(true)
  }

  /** Index `i` holds the first record whose slug is `slug`. */
  predicate FirstWithSlug(catalog: seq<Project>, slug: string, i: int)
  {
    0 <= i < |catalog| && catalog[i].slug == slug &&
    forall j :: 0 <= j < i ==> catalog[j].slug != slug
  }

  /** `getProjectBySlug`: the first record whose slug equals `slug`
      exactly, or `None` (`null`) when there is none. */
  function GetProjectBySlug(catalog: seq<Project>, slug: string): (r: Option<Project>)
    ensures r.None? <==> forall i :: 0 <= i < |catalog| ==> catalog[i].slug != slug
    ensures forall i :: FirstWithSlug(catalog, slug, i) ==> r == Some(catalog[i])
  {
    var r := Find(catalog, (p: Project) => p.slug == slug);
    assert forall i :: FirstWithSlug(catalog, slug, i) ==>
      IsFirstMatch(catalog, (p: Project) => p.slug == slug, i);
    r
  }

  /** `getFeaturedProjects`: exactly the featured records, in catalog order. */
  function GetFeaturedProjects(catalog: seq<Project>): (r: seq<Project>)
    ensures IsSubseq(r, catalog)
    ensures forall p :: p in r <==> p in catalog && IsFeatured(p)
  {
    FilterIsSubseq(catalog, IsFeatured);
    Filter(catalog, IsFeatured)
  }

  /** `getAllProjects` hands out the catalog itself: every record, in
      catalog order, nothing added and nothing dropped. */
  function GetAllProjects(catalog: seq<Project>): (r: seq<Project>)
    ensures r == catalog
  {
    catalog
  }

  /** `getProjectsByStatus`: exactly the records with status `status`, in
      catalog order. */
  function GetProjectsByStatus(catalog: seq<Project>, status: Status): (r: seq<Project>)
    ensures IsSubseq(r, catalog)
    ensures forall p :: p in r <==> p in catalog && p.status == status
  {
    var keep := (p: Project) => p.status == status;
    FilterIsSubseq(catalog, keep);
    Filter(catalog, keep)
  }

  /** `getProjectsByCategory`: exactly the records whose category is the
      string `category`, in catalog order; empty when no record uses it. */
  function GetProjectsByCategory(catalog: seq<Project>, category: string): (r: seq<Project>)
    ensures IsSubseq(r, catalog)
    ensures forall p :: p in r <==> p in catalog && p.category == category
    ensures r == [] <==> forall i :: 0 <= i < |catalog| ==> catalog[i].category != category
  {
    var keep := (p: Project) => p.category == category;
    FilterIsSubseq(catalog, keep);
    Filter(catalog, keep)
  }

  /** The featured records keep their multiplicity in the catalog. */
  lemma FeaturedCount(catalog: seq<Project>, p: Project)
    ensures multiset(GetFeaturedProjects(catalog))[p] ==
      if IsFeatured(p) then multiset(catalog)[p] else 0
  {
    FilterCount(catalog, IsFeatured, p);
  }

  /** A record of the category keeps its multiplicity in the catalog;
      a record of any other category does not appear. */
  lemma CategoryCount(catalog: seq<Project>, category: string, p: Project)
    ensures multiset(GetProjectsByCategory(catalog, category))[p] ==
      if p.category == category then multiset(catalog)[p] else 0
  {
    FilterCount(catalog, (q: Project) => q.category == category, p);
  }

  /** The three status queries partition the catalog: every record lands
      in exactly one of them, as often as it occurs in the catalog. */
  lemma StatusPartition(catalog: seq<Project>)
    ensures multiset(GetProjectsByStatus(catalog, Completed))
          + multiset(GetProjectsByStatus(catalog, InProgress))
          + multiset(GetProjectsByStatus(catalog, Planned)) == multiset(catalog)
    ensures |GetProjectsByStatus(catalog, Completed)|
          + |GetProjectsByStatus(catalog, InProgress)|
          + |GetProjectsByStatus(catalog, Planned)| == |catalog|
    ensures forall p, s :: p in catalog ==> (p in GetProjectsByStatus(catalog, s) <==> s == p.status)
  {
    var c := multiset(GetProjectsByStatus(catalog, Completed));
    var i := multiset(GetProjectsByStatus(catalog, InProgress));
    var l := multiset(GetProjectsByStatus(catalog, Planned));
    forall p: Project
      ensures (c + i + l)[p] == multiset(catalog)[p]
    {
      FilterCount(catalog, (q: Project) => q.status == Completed, p);
      FilterCount(catalog, (q: Project) => q.status == InProgress, p);
      FilterCount(catalog, (q: Project) => q.status == Planned, p);
    }
    assert c + i + l == multiset(catalog);
    assert |c + i + l| == |multiset(catalog)|;
  }

  /** Slugs are pairwise distinct. */
  predicate UniqueSlugs(catalog: seq<Project>)
  {
    forall i, j :: 0 <= i < j < |catalog| ==> catalog[i].slug != catalog[j].slug
  }

  /** With unique slugs, looking a record up by its own slug finds it
      (what the `/projects/:slug` route relies on). */
  lemma LookupOwnSlug(catalog: seq<Project>, i: int)
    requires UniqueSlugs(catalog)
    requires 0 <= i < |catalog|
    ensures GetProjectBySlug(catalog, catalog[i].slug) == Some(catalog[i])
  {
    assert FirstWithSlug(catalog, catalog[i].slug, i);
  }

  /** Slugs of pairwise different lengths are pairwise different. */
  lemma DistinctLengthsUnique(catalog: seq<Project>, lengths: seq<int>)
    requires |catalog| == |lengths| && NoDuplicates(lengths)
    requires forall i :: 0 <= i < |catalog| ==> |catalog[i].slug| == lengths[i]
    ensures UniqueSlugs(catalog)
  {
    forall i, j | 0 <= i < j < |catalog|
      ensures catalog[i].slug != catalog[j].slug
    {
      assert lengths[i] != lengths[j];
    }
  }

  /** The literal catalog. */
  const Projects: seq<Project> := [
    Project(
      id := 1,
      slug := "The Fund Analytics Board",
      title := "The Fund Analytics Board",
      shortDescription := "Fund analytics board is a comprehensive web-based fund request management dashboard with real-time analytics, PDF generation, and secure retirement workflows. It provides a complete administrative interface for monitoring, approving, and managing fund requests with integrated email notifications and document export capabilities.",
      longDescription := "Fund analytics board is a full-stack web application designed to streamline the fund request management process for organizations. Built as a self-contained dashboard, it serves as the central hub for administrators to oversee all fund request activities with powerful analytics and automation features. The application offers a user-friendly interface for submitting, tracking, and approving fund requests, complete with real-time data visualization through charts and graphs. Key functionalities include automated email notifications to keep stakeholders informed, PDF generation for official documentation, and a secure retirement workflow to ensure proper handling of funds. The dashboard is built using modern web technologies, ensuring scalability, security, and ease of use for administrators",
      technologies := ["MongoDB", "Express.js", "Node.js", "Mongoose", "Nodemailer", "PDFKit", "CORS", "Chart.js", "dotenv", "HTML5", "CSS3", "JavaScript", "RESTful API"],
      status := Completed,
      category := "web-development",
      role := Some("Full-Stack Developer"),
      teamSize := Some(1),
      demoUrl := Some("https://myfunddashboard.onrender.com/"),
      githubUrl := Some("https://github.com/EmmaDeil/My-Fund-Request-App.git"),
      image := "/analytics_board.png",
      featured := Some(true)),
    Project(
      id := 2,
      slug := "Company's website",
      title := "Company's Website",
      shortDescription := "Responsive website for showcasing company services and portfolio.",
      longDescription := "A modern website built with Next.js and Tailwind CSS to showcase the company's services, portfolio, and client testimonials. The site features a clean and professional design, with smooth animations and a focus on user experience. Key sections include an about page, service descriptions, a portfolio gallery, and a contact form.",
      technologies := ["Next.js", "Tailwind CSS", "React", "React Hook Form", "Framer Motion"],
      status := InProgress,
      category := "web-development",
      role := Some("Intern"),
      teamSize := Some(3),
      demoUrl := Some("https://ladiel-innovations-ltd.onrender.com/"),
      githubUrl := Some("https://github.com/EmmaDeil/ecommerce-platform"),
      image := "/ladeilapp.png",
      featured := Some(false)),
    Project(
      id := 3,
      slug := "task-manager",
      title := "Task Management App",
      shortDescription := "Collaborative project management tool with real-time updates.",
      longDescription := "A collaborative task management application that enables teams to organize projects, assign tasks, and track progress in real-time. Built with React and Socket.io for real-time communication, featuring drag-and-drop interfaces, file attachments, comments, and notification systems.",
      technologies := ["React", "Socket.io", "Express", "PostgreSQL", "Material-UI"],
      status := Completed,
      category := "productivity",
      role := Some("Frontend Developer"),
      teamSize := Some(2),
      demoUrl := Some("https://taskapp.example.com"),
      githubUrl := Some("https://github.com/EmmaDeil/task-manager-app"),
      image := "https://via.placeholder.com/800x600/DC2626/ffffff?text=Task+Manager",
      featured := Some(true)),
    Project(
      id := 4,
      slug := "weather-app",
      title := "Weather Dashboard",
      shortDescription := "Real-time weather application with location-based forecasts.",
      longDescription := "A responsive weather application that provides current weather conditions and 7-day forecasts. Features include geolocation support, city search functionality, interactive weather maps, and detailed weather metrics. Built with modern JavaScript and integrated with multiple weather APIs for accurate data.",
      technologies := ["JavaScript", "HTML5", "CSS3", "Weather API", "Chart.js"],
      status := Completed,
      category := "web-development",
      role := Some("Frontend Developer"),
      teamSize := Some(1),
      demoUrl := Some("https://weather-dashboard.example.com"),
      githubUrl := Some("https://github.com/EmmaDeil/weather-dashboard"),
      image := "https://via.placeholder.com/800x600/0EA5E9/ffffff?text=Weather+App",
      featured := Some(false)),
    Project(
      id := 5,
      slug := "blog-platform",
      title := "Blog Publishing Platform",
      shortDescription := "Modern blogging platform with markdown support and user management.",
      longDescription := "A full-featured blogging platform built with modern web technologies. Includes user authentication, markdown editor with live preview, comment system, tag-based categorization, and SEO optimization. Features responsive design and admin dashboard for content management.",
      technologies := ["React", "Node.js", "MongoDB", "Markdown", "JWT"],
      status := InProgress,
      category := "web-development",
      role := Some("Full-Stack Developer"),
      teamSize := Some(1),
      demoUrl := None,
      githubUrl := Some("https://github.com/EmmaDeil/blog-platform"),
      image := "https://via.placeholder.com/800x600/7C3AED/ffffff?text=Blog+Platform",
      featured := Some(false)),
    Project(
      id := 6,
      slug := "Nigerian frenchgirl",
      title := "The Nigerian frenchgirl",
      shortDescription := "This is a project that has to do with the learning of french in the nigerian market",
      longDescription := "This is where we want people to come teach and learn french",
      technologies := ["React", "MongoDB"],
      status := InProgress,
      category := "web-development",
      role := Some("Intern"),
      teamSize := Some(2),
      demoUrl := Some(""),
      githubUrl := Some(""),
      image := "",
      featured := Some(false)),
    Project(
      id := 7,
      slug := "my-funds-request-app",
      title := "My Funds Request App",
      shortDescription := "A comprehensive enterprise-grade web application for managing fund requests with automated email notifications, PDF generation, and approval workflows.",
      longDescription := "The Fund Request Application is an enterprise-grade web application designed to streamline and automate the corporate fund request and approval process. This full-stack solution eliminates manual paperwork and provides a digital workflow that ensures transparency, accountability, and efficiency in financial request management. Users can submit detailed fund requests, which are then routed through a multi-level approval process. The application features automated email notifications to keep all stakeholders informed at each stage of the request lifecycle. Additionally, it includes functionality for generating professional PDF documents of fund requests for record-keeping and auditing purposes.",
      technologies := ["React.js", "Node.js", "Express.js", "Nodemailer", "PDFKit", "CSS3", "HTML5", "JavaScript", "Mongoose", "axios"],
      status := Completed,
      category := "web-development",
      role := Some("Intern"),
      teamSize := Some(1),
      demoUrl := Some("https://my-fund-request-app.onrender.com/"),
      githubUrl := Some("https://github.com/EmmaDeil/My-Fund-Request-App.git"),
      image := "/fundrequest.png",
      featured := Some(true))
  ]

  /** In the literal data the ids run 1, 2, ..., 7 in order. */
  lemma ProjectsIdsSequential()
    ensures |Projects| == 7
    ensures forall i :: 0 <= i < |Projects| ==> Projects[i].id == i + 1
  {
  }

  /** In the literal data the slugs are pairwise distinct: the seven
      slugs have seven different lengths. */
  lemma ProjectsUniqueSlugs()
    ensures UniqueSlugs(Projects)
  {
    assert |Projects| == 7;
    assert |Projects[0].slug| == 24;
    assert |Projects[1].slug| == 17;
    assert |Projects[2].slug| == 12;
    assert |Projects[3].slug| == 11;
    assert |Projects[4].slug| == 13;
    assert |Projects[5].slug| == 19;
    assert |Projects[6].slug| == 20;
    var lengths := [24, 17, 12, 11, 13, 19, 20];
    assert NoDuplicates(lengths);
    DistinctLengthsUnique(Projects, lengths);
  }

  /** Every record of the literal data is found by its own slug. */
  lemma ProjectsLookupBySlug()
    ensures forall i :: 0 <= i < |Projects| ==>
      GetProjectBySlug(Projects, Projects[i].slug) == Some(Projects[i])
  {
    ProjectsUniqueSlugs();
    forall i | 0 <= i < |Projects|
      ensures GetProjectBySlug(Projects, Projects[i].slug) == Some(Projects[i])
    {
      LookupOwnSlug(Projects, i);
    }
  }
}
