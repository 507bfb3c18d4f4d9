/** The contract of the promise wrapper around `child_process.exec`
    (exec.js:3-17), and the outcome of the `fs-extra` calls the script awaits.
    What the commands do to the disk is not visible here; the pipeline takes
    each outcome, and each effect, as a parameter. */
module Exec {

  /** A finished command: resolved with its output (exec.js:11-14), or rejected
      with an error that still carries the output (exec.js:6-9). */
  datatype CommandResult = Ok(stdout: string, stderr: string) | Err(stdout: string, stderr: string)

  /** A filesystem promise (`fs.rename`, `fs.copy`, `fs.writeFile`) that
      resolves or rejects. */
  datatype IoResult = Done | IoError

  datatype Option<+T> = None | Some(value: T)
}
