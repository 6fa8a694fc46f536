/** Whether a command forbids, requires or allows value tokens after it (NeoCli/Necessity.cs). */
module Necessities {

  datatype Necessity = None | Required | Optional
}
