/** The AXI response codes the bridges use: OKAY, SLVERR and DECERR of ARM IHI 0022, section A3.4.4. */
module AxiResponse {

  datatype Verdict = Okay | SlvErr | DecErr

  function Code(v: Verdict): nat {
    match v
    case Okay => 0
    case SlvErr => 2
    case DecErr => 3
  }
}
