/**
 * The `preprocessor_data` record the argument parsers fill in. Only the four
 * fields the parsers touch are modelled. The record is passed to the parsers
 * by pointer and updated in place, so it is a class; `View` gives its
 * contents as a value.
 */
module Predata {

  datatype Fields = Fields(
    programName: string,
    inputFilename: string,
    outputFilename: string,
    systemDirectories: seq<string>)

  class PreprocessorData {
    var programName: string
    var inputFilename: string
    var outputFilename: string
    var systemDirectories: seq<string>

    /** A record whose fields are all empty, as a default-constructed `preprocessor_data`. */
    constructor ()
      ensures View() == Fields("", "", "", [])
    {
      programName, inputFilename, outputFilename := "", "", "";
      systemDirectories := [];
    }

    function View(): Fields
      reads this
    {
      Fields(programName, inputFilename, outputFilename, systemDirectories)
    }
  }
}
