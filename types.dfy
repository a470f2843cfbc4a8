/**
 * The record shapes of the career repository and of the matching step that
 * the rendering code reads. Only shapes: none of them carries logic.
 */
module Types {
  import opened Wrappers

  datatype Category = Category(name: string, blocks: seq<string>)

  datatype ImpactStatement = ImpactStatement(id: string, text: string, tags: seq<string>)

  /** One job held. `endDate` is `None` for the current role. */
  datatype Position = Position(
    id: string,
    title: string,
    company: string,
    location: string,
    startDate: string,
    endDate: Option<string>,
    context: string,
    categories: seq<Category>,
    impactStatements: seq<ImpactStatement>,
    tags: seq<string>)

  datatype Education = Education(degree: string, school: string, location: string, year: int)

  datatype Meta = Meta(
    name: string,
    location: string,
    email: string,
    phone: string,
    linkedin: string,
    education: seq<Education>)

  datatype Repository = Repository(meta: Meta, positions: seq<Position>)

  /** One impact statement judged relevant to a job description. */
  datatype MatchedBlock = MatchedBlock(
    positionId: string,
    positionTitle: string,
    company: string,
    statementId: Option<string>,
    statementText: string,
    matchReason: string,
    relevanceScore: int,
    tags: seq<string>)
}
