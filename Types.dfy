/** Records shared by the job finder's screens, hooks and contexts. */
module Types {

  /** An optional property of a record (`field?: T` in the app's type declarations). */
  datatype Option<+T> = None | Some(value: T)

  /**
   * One job posting. Every property marked optional in the app's `Job`
   * interface is an `Option`. `location` is not declared on the interface,
   * but the search hook reads it, so it is carried here as an optional
   * string as well. Salaries are whole numbers.
   */
  datatype Job = Job(
    id: string,
    title: string,
    company: string,
    companyLogo: Option<string>,
    mainCategory: Option<string>,
    jobType: Option<string>,
    workModel: Option<string>,
    seniorityLevel: Option<string>,
    salaryMin: Option<int>,
    salaryMax: Option<int>,
    currency: Option<string>,
    locations: Option<seq<string>>,
    tags: Option<seq<string>>,
    description: Option<string>,
    isSaved: Option<bool>,
    location: Option<string>)

  /** A form validation failure: which field, and the message shown for it. */
  datatype ValidationError = ValidationError(field: string, message: string)

  /** A job with the given identity and display strings and every optional property absent. */
  function Posting(id: string, title: string, company: string): Job
  {
    Job(id, title, company, None, None, None, None, None, None, None, None, None, None, None, None, None)
  }
}
