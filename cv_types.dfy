/** The candidate records the extraction produces and the summary renders. */
module CvTypes {

  /** One job of the candidate's work history. */
  datatype WorkExperience = WorkExperience(
    company: string,
    position: string,
    duration: string,
    reasonForLeaving: string)

  /** One educational qualification. */
  datatype Qualification = Qualification(
    institution: string,
    course: string,
    year: string)

  /** The structured profile. The age is kept as an integer; the lists are
      in the order the model returned them. */
  datatype ExtractedCVData = ExtractedCVData(
    fullName: string,
    age: int,
    driversLicense: bool,
    ownTransport: bool,
    noticePeriod: string,
    salaryRequirement: string,
    workHistory: seq<WorkExperience>,
    qualifications: seq<Qualification>)
}
