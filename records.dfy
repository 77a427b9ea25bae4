/** The values the recommendation engine consumes and produces. */
module Records {

  datatype Option<T> = None | Some(value: T)

  /** An internship as the catalog supplies it. Only `location`, `skills`,
      `isPaid` and `commitment` take part in filtering and scoring; the other
      fields are carried through unchanged. A field missing from a catalog
      record is the empty string, the empty list or `false`. */
  datatype Internship = Internship(
    id: string,
    title: string,
    company: string,
    location: string,
    skills: seq<string>,
    isPaid: bool,
    commitment: string,
    stipend: string,
    duration: string,
    url: string)

  /** The user's answers: a comma-separated skill string, a free-text
      location and the selected internship type. A missing answer is "". */
  datatype Profile = Profile(skills: string, location: string, internshipType: string)

  /** A catalog record with the `skillMatchPercentage` field added to it. */
  datatype Scored = Scored(internship: Internship, skillMatchPercentage: int)

  /** Either an explanatory message or a list of recommendations, never both. */
  datatype Result = Message(text: string) | Internships(items: seq<Scored>)
}
