/** The light-curve record of src/lightcurve.rs. */
module LightCurves {

  /** Observation times (`mjd`), magnitudes (`mag`) and their errors (`err`): three
      parallel vectors. Nothing enforces equal lengths, so the model does not either;
      `err` is carried but never read by the periodogram. */
  datatype LightCurve = LightCurve(mjd: seq<real>, mag: seq<real>, err: seq<real>)
}
