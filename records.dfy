/** The records the harness passes between its stages. */
module Records {
  /** What one `subprocess.run(..., capture_output=True, text=True)` hands back. */
  datatype ProcessResult = ProcessResult(returncode: int, stdout: string, stderr: string)

  /** One entry of the `results` list: the identifier, whether it passed, and its duration in seconds. */
  datatype TestResult = TestResult(id: string, success: bool, duration: real)
}
