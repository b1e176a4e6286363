/** The filesystem as the site builder sees it: a map from path to file
    contents, and the outcome of a step that may raise. */
module Files {

  type Path = string
  type FileMap = map<Path, string>

  /** The one error the modelled steps raise: opening a missing file for
      reading. */
  datatype IoError = FileNotFound(path: Path)

  datatype Status = Done | Failed(error: IoError)

  /** The files after a step and whether it finished. A step that raises
      part-way keeps what it wrote before raising. */
  datatype Outcome = Outcome(files: FileMap, status: Status)
}
