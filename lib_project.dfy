/** The project catalog of `src/lib/project.ts`: the record type with
    enumerated category and status, the constant list of projects and the
    query helpers over it. The helpers read a module constant in the
    source; here they take the catalog as an argument, and `Projects` is
    the constant they are applied to. */
module LibProject {
  import opened Wrappers
  import opened ArrayOps
  import opened ProjectKinds

  /** A project record. Optional properties (`image?`, `demoUrl?`,
      `githubUrl?`, `endDate?`, `challenges?`) are `Option`s. */
  datatype Project = Project(
    id: int,
    slug: string,
    title: string,
    shortDescription: string,
    longDescription: string,
    technologies: seq<string>,
    category: Category,
    status: Status,
    featured: bool,
    image: Option<string>,
    demoUrl: Option<string>,
    githubUrl: Option<string>,
    startDate: string,
    endDate: Option<string>,
    teamSize: int,
    role: string,
    highlights: seq<string>,
    challenges: Option<seq<string>>)

  /** Index `i` holds the first record whose slug is `slug`. */
  predicate FirstWithSlug(catalog: seq<Project>, slug: string, i: int)
  {
    0 <= i < |catalog| && catalog[i].slug == slug &&
    forall j :: 0 <= j < i ==> catalog[j].slug != slug
  }

  /** `getProjectBySlug`: the first record whose slug equals `slug`
      exactly, or `None` (`undefined`) when there is none. */
  function GetProjectBySlug(catalog: seq<Project>, slug: string): (r: Option<Project>)
    ensures r.None? <==> forall i :: 0 <= i < |catalog| ==> catalog[i].slug != slug
    ensures forall i :: FirstWithSlug(catalog, slug, i) ==> r == Some(catalog[i])
  {
    var r := Find(catalog, (p: Project) => p.slug == slug);
    assert forall i :: FirstWithSlug(catalog, slug, i) ==>
      IsFirstMatch(catalog, (p: Project) => p.slug == slug, i);
    r
  }

  /** `getFeaturedProjects`: exactly the featured records, in catalog order. */
  function GetFeaturedProjects(catalog: seq<Project>): (r: seq<Project>)
    ensures IsSubseq(r, catalog)
    ensures forall p :: p in r <==> p in catalog && p.featured
  {
    var keep := (p: Project) => p.featured;
    FilterIsSubseq(catalog, keep);
    Filter(catalog, keep)
  }

  /** `getProjectsByCategory`: exactly the records of category `category`,
      in catalog order; empty when no record has that category. */
  function GetProjectsByCategory(catalog: seq<Project>, category: Category): (r: seq<Project>)
    ensures IsSubseq(r, catalog)
    ensures forall p :: p in r <==> p in catalog && p.category == category
    ensures r == [] <==> forall i :: 0 <= i < |catalog| ==> catalog[i].category != category
  {
    var keep := (p: Project) => p.category == category;
    FilterIsSubseq(catalog, keep);
    Filter(catalog, keep)
  }

  /** `getProjectsByStatus`: exactly the records with status `status`, in
      catalog order. */
  function GetProjectsByStatus(catalog: seq<Project>, status: Status): (r: seq<Project>)
    ensures IsSubseq(r, catalog)
    ensures forall p :: p in r <==> p in catalog && p.status == status
  {
    var keep := (p: Project) => p.status == status;
    FilterIsSubseq(catalog, keep);
    Filter(catalog, keep)
  }

  /** The featured records keep their multiplicity in the catalog. */
  lemma FeaturedCount(catalog: seq<Project>, p: Project)
    ensures multiset(GetFeaturedProjects(catalog))[p] ==
      if p.featured then multiset(catalog)[p] else 0
  {
    FilterCount(catalog, (q: Project) => q.featured, p);
  }

  /** A record of the category keeps its multiplicity in the catalog;
      a record of any other category does not appear. */
  lemma CategoryCount(catalog: seq<Project>, category: Category, p: Project)
    ensures multiset(GetProjectsByCategory(catalog, category))[p] ==
      if p.category == category then multiset(catalog)[p] else 0
  {
    FilterCount(catalog, (q: Project) => q.category == category, p);
  }

  /** A record with the status keeps its multiplicity in the catalog; a
      record with any other status does not appear. */
  lemma StatusCount(catalog: seq<Project>, status: Status, p: Project)
    ensures multiset(GetProjectsByStatus(catalog, status))[p] ==
      if p.status == status then multiset(catalog)[p] else 0
  {
    FilterCount(catalog, (q: Project) => q.status == status, p);
  }

  /** The category of every record, in catalog order. */
  function CategoryColumn(catalog: seq<Project>): (r: seq<Category>)
    ensures |r| == |catalog| && forall i :: 0 <= i < |r| ==> r[i] == catalog[i].category
  {
    Map(catalog, (p: Project) => p.category)
  }

  /** Index `k` holds the first record of category `c`. */
  predicate FirstWithCategory(catalog: seq<Project>, c: Category, k: int)
  {
    0 <= k < |catalog| && catalog[k].category == c &&
    forall j :: 0 <= j < k ==> catalog[j].category != c
  }

  /** `getProjectCategories`: each category some record has, once. */
  function GetProjectCategories(catalog: seq<Project>): (r: seq<Category>)
    ensures NoDuplicates(r)
    ensures forall c :: c in r <==> exists i :: 0 <= i < |catalog| && catalog[i].category == c
  {
    var cats := CategoryColumn(catalog);
    assert forall c :: c in cats <==> exists i :: 0 <= i < |catalog| && catalog[i].category == c by {
      forall c | c in cats ensures exists i :: 0 <= i < |catalog| && catalog[i].category == c {
        var i :| 0 <= i < |cats| && cats[i] == c;
      }
    }
    Distinct(cats)
  }

  /** `getProjectCategories` lists categories in the order in which the
      catalog first uses them, as a JavaScript `Set` keeps insertion order. */
  lemma CategoriesInFirstUseOrder(catalog: seq<Project>)
    ensures forall i, j, ki, kj |
      && 0 <= i < j < |GetProjectCategories(catalog)|
      && FirstWithCategory(catalog, GetProjectCategories(catalog)[i], ki)
      && FirstWithCategory(catalog, GetProjectCategories(catalog)[j], kj)
      :: ki < kj
  {
    var cats := CategoryColumn(catalog);
    var r := GetProjectCategories(catalog);
    DistinctFirstAppearance(cats);
    forall c, k | FirstWithCategory(catalog, c, k)
      ensures c in cats && FirstIndex(cats, c) == k
    {
      assert cats[k] == c;
      var m := FirstIndex(cats, c);
      assert catalog[m].category == c;
    }
  }

  /** `getAllProjectSlugs`: the i-th slug is the i-th record's slug. */
  function GetAllProjectSlugs(catalog: seq<Project>): (r: seq<string>)
    ensures |r| == |catalog|
    ensures forall i :: 0 <= i < |catalog| ==> r[i] == catalog[i].slug
  {
    Map(catalog, (p: Project) => p.slug)
  }

  /** Slugs are pairwise distinct. */
  predicate UniqueSlugs(catalog: seq<Project>)
  {
    forall i, j :: 0 <= i < j < |catalog| ==> catalog[i].slug != catalog[j].slug
  }

  /** Every listed slug resolves, and with unique slugs it resolves to the
      record it was taken from: the pages generated from
      `getAllProjectSlugs` all find their project. */
  lemma SlugsResolve(catalog: seq<Project>)
    ensures forall s :: s in GetAllProjectSlugs(catalog) ==> GetProjectBySlug(catalog, s).Some?
    ensures UniqueSlugs(catalog) ==> forall i :: 0 <= i < |catalog| ==>
      GetProjectBySlug(catalog, GetAllProjectSlugs(catalog)[i]) == Some(catalog[i])
  {
    var slugs := GetAllProjectSlugs(catalog);
    forall s | s in slugs ensures GetProjectBySlug(catalog, s).Some? {
      var i :| 0 <= i < |slugs| && slugs[i] == s;
      assert catalog[i].slug == s;
    }
    if UniqueSlugs(catalog) {
      forall i | 0 <= i < |catalog|
        ensures GetProjectBySlug(catalog, slugs[i]) == Some(catalog[i])
      {
        assert FirstWithSlug(catalog, slugs[i], i);
      }
    }
  }

  /** The literal catalog. */
  const Projects: seq<Project> := [
    Project(
      id := 1,
      slug := "modern-ecommerce-platform",
      title := "Modern E-commerce Platform",
      shortDescription := "A full-stack e-commerce site built with Next.js and Stripe.",
      longDescription := "This project demonstrates complex state management, dynamic routing, secure payment processing, and comprehensive user authentication. It features a modern, responsive design and lightning-fast performance thanks to server-side rendering.",
      technologies := ["Next.js", "TypeScript", "Tailwind CSS", "Stripe", "PostgreSQL", "Prisma"],
      category := WebApp,
      status := Completed,
      featured := true,
      image := Some("/images/ecommerce-platform.jpg"),
      demoUrl := Some("https://ecommerce-demo.vercel.app"),
      githubUrl := Some("https://github.com/yourusername/ecommerce-platform"),
      startDate := "2024-01",
      endDate := Some("2024-06"),
      teamSize := 1,
      role := "Full-Stack Developer",
      highlights := ["Implemented secure payment processing with Stripe", "Built responsive design supporting mobile and desktop", "Achieved 95+ Lighthouse performance score", "Integrated real-time inventory management"],
      challenges := Some(["Optimizing database queries for large product catalogs", "Implementing complex cart logic with multiple discounts"])),
    Project(
      id := 2,
      slug := "realtime-chat-application",
      title := "Real-Time Chat Application",
      shortDescription := "A real-time communication platform using WebSockets.",
      longDescription := "Built to handle concurrent connections and instant message delivery. Key features include user presence indicators, group chat capabilities, and end-to-end encryption demonstration. The frontend is fully componentized with React.",
      technologies := ["React", "Node.js", "Socket.io", "Express.js", "MongoDB", "JWT"],
      category := WebApp,
      status := Completed,
      featured := true,
      image := Some("/images/chat-app.jpg"),
      demoUrl := Some("https://chat-app-demo.vercel.app"),
      githubUrl := Some("https://github.com/yourusername/chat-app"),
      startDate := "2023-08",
      endDate := Some("2023-12"),
      teamSize := 2,
      role := "Frontend Lead Developer",
      highlights := ["Real-time messaging with 99.9% uptime", "Support for 1000+ concurrent users", "End-to-end message encryption", "Mobile-responsive design"],
      challenges := Some(["Handling connection drops and reconnection logic", "Implementing efficient message caching strategy"])),
    Project(
      id := 3,
      slug := "portfolio-website",
      title := "Portfolio Website",
      shortDescription := "A responsive portfolio built with React and Framer Motion.",
      longDescription := "This very portfolio website showcases modern web development practices including responsive design, smooth animations, and optimized performance. Built with React and Vite for excellent developer experience.",
      technologies := ["React", "TypeScript", "Tailwind CSS", "Framer Motion", "Vite"],
      category := WebApp,
      status := Completed,
      featured := true,
      image := None,
      demoUrl := None,
      githubUrl := Some("https://github.com/emmadeil/portfolio"),
      startDate := "2024-09",
      endDate := Some("2024-09"),
      teamSize := 1,
      role := "Full-Stack Developer",
      highlights := ["Fully responsive design across all devices", "Smooth animations and transitions", "TypeScript for better code quality", "Modern React patterns and hooks"],
      challenges := None)
  ]

  /** In the literal data the ids are 1, 2, 3 in order. */
  lemma ProjectsIdsSequential()
    ensures |Projects| == 3
    ensures forall i :: 0 <= i < |Projects| ==> Projects[i].id == i + 1
  {
  }

  /** In the literal data the slugs are distinct. */
  lemma ProjectsUniqueSlugs()
    ensures UniqueSlugs(Projects)
  {
    assert |Projects| == 3;
    assert Projects[0].slug[0] == 'm' && |Projects[0].slug| == 25;
    assert Projects[1].slug[0] == 'r' && |Projects[1].slug| == 25;
    assert |Projects[2].slug| == 17;
  }

  /** Every record of the literal data is found by its own slug. */
  lemma ProjectsLookupBySlug()
    ensures forall i :: 0 <= i < |Projects| ==>
      GetProjectBySlug(Projects, Projects[i].slug) == Some(Projects[i])
  {
    ProjectsUniqueSlugs();
    SlugsResolve(Projects);
  }

  /** Every record of the literal data is a web app, so the category list
      is `['web-app']`. */
  lemma ProjectsCategories()
    ensures GetProjectCategories(Projects) == [WebApp]
  {
    var cats := CategoryColumn(Projects);
    assert cats == [WebApp, WebApp, WebApp];
    assert cats[..2] == [WebApp, WebApp] && cats[..1] == [WebApp];
    assert Distinct(cats[..1]) == [WebApp];
  }
}
