/**
 Which links a project card carries. "View Code" and "Live Demo" appear
 only for a project whose `code`/`demo` field is set, non-empty and not the
 placeholder `#`; "Learn More", pointing at the project's detail page by
 slug, is always there and always last.
 */
module ProjectCards {
  import opened JsText

  datatype Project = Project(
    slug: string,
    title: string,
    description: string,
    skills: Option<seq<string>>,
    img: Option<string>,
    code: Option<string>,
    demo: Option<string>)

  datatype CardLink = ViewCode(href: string) | LiveDemo(href: string) | LearnMore(href: string)

  const Placeholder := "#"

  /** A link field worth a button: set, non-empty, and not `#`. */
  predicate IsRealLink(v: Option<string>) {
    !Falsy(v) && v.value != Placeholder
  }

  function DetailPage(slug: string): string {
    "project.html?slug=" + slug
  }

  /** The card's links in the order they are emitted. */
  function CardLinks(p: Project): (links: seq<CardLink>)
    ensures |links| >= 1 && links[|links| - 1] == LearnMore(DetailPage(p.slug))
    ensures |links| == 1 + (if IsRealLink(p.code) then 1 else 0) + (if IsRealLink(p.demo) then 1 else 0)
    ensures links[0].ViewCode? <==> IsRealLink(p.code)
    ensures (|links| >= 2 && links[|links| - 2].LiveDemo?) <==> IsRealLink(p.demo)
    ensures forall k :: 0 <= k < |links| && links[k].ViewCode? ==> k == 0 && links[k].href == p.code.value
    ensures forall k :: 0 <= k < |links| && links[k].LiveDemo? ==> k == |links| - 2 && links[k].href == p.demo.value
    ensures forall k :: 0 <= k < |links| - 1 ==> !links[k].LearnMore?
  {
    (if IsRealLink(p.code) then [ViewCode(p.code.value)] else [])
    + (if IsRealLink(p.demo) then [LiveDemo(p.demo.value)] else [])
    + [LearnMore(DetailPage(p.slug))]
  }
}
