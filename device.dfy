/**
 * `get_device`: the compute device for transcription, chosen from an
 * optional preference and the outcome of the CUDA availability probe.
 */
module Device {
  import opened Wrappers
  import opened Text

  /** What `torch.cuda.is_available()` did: returned true, returned false, or raised. */
  datatype CudaProbe = Available | Unavailable | Raised

  /** The preference asks for CUDA: absent, or "cuda" occurs in it case-insensitively. */
  ghost predicate RequestsCuda(selection: Option<string>)
  {
    selection.None? || exists i :: OccursAt(Lower(selection.value), "cuda", i)
  }

  /**
   * `get_device(device_selection)`. It never fails and yields "cuda" or
   * "cpu"; "cuda" exactly when CUDA is requested (or nothing is) and the
   * probe reports it available. A false or raising probe falls back to
   * "cpu", and so does any preference not mentioning "cuda".
   */
  function GetDevice(selection: Option<string>, probe: CudaProbe): (device: string)
    ensures device == "cuda" || device == "cpu"
    ensures device == "cuda" <==> RequestsCuda(selection) && probe == Available
  {
    if selection.None? || Contains(Lower(selection.value), "cuda") then
      match probe
      case Available => "cuda"
      case Unavailable => "cpu"   // logged: CUDA not available, falling back
      case Raised => "cpu"        // logged: error checking CUDA availability
    else
      "cpu"
  }

  /**
   * The two values `--compute_device` admits (its choices are matched
   * case-sensitively), as `main` passes them on.
   */
  lemma CommandLineChoices(probe: CudaProbe)
    ensures GetDevice(Some("cpu"), probe) == "cpu"
    ensures GetDevice(Some("cuda"), probe) == (if probe == Available then "cuda" else "cpu")
  {
  }

  /**
   * `main` lower-cases the preference before passing it, which changes
   * nothing: `get_device` lower-cases it again itself.
   */
  lemma MainLoweringIrrelevant(s: string, probe: CudaProbe)
    ensures GetDevice(Some(Lower(s)), probe) == GetDevice(Some(s), probe)
  {
    LowerIdempotent(s);
  }
}
