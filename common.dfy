/** Values shared by every part of the model: optional values, the outcome of a
    Python call that may raise, what a finished subprocess printed, and the
    externally visible effects (commands started, log lines written). */
module Common {

  datatype Option<T> = None | Some(value: T)

  /** `Err` stands for a Python exception that leaves the function. */
  datatype Result<T> = Ok(value: T) | Err(error: string)

  /** What `subprocess.check_output` gives: it raised (non-zero exit, missing
      program, undecodable output) or it returned the decoded standard output. */
  datatype Captured = Raised | Stdout(text: string)

  /** An effect visible outside the process: a command started with `Popen`
      (its argument vector) or a line written to the log. */
  datatype Effect = Run(argv: seq<string>) | Log(line: string)
}
