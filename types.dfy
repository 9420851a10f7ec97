/** Configuration records of the imaging stage: the imager settings and the
    W- and A-projection settings, with their default and parameterised constructors. */
module ImagingTypes {

  datatype KernelFunction = TopHat | Triangle | Sinc | Gaussian | GaussianSinc | PSWF

  datatype FFTRoutine =
    | FFTW_ESTIMATE_FFT
    | FFTW_MEASURE_FFT
    | FFTW_PATIENT_FFT
    | FFTW_WISDOM_FFT
    | FFTW_WISDOM_INPLACE_FFT

  datatype InterpType = LINEAR | CUBIC | COSINE

  datatype MedianMethod = ZEROMEDIAN | BINMEDIAN | BINAPPROX | NTHELEMENT

  datatype CeresDiffMethod = AutoDiff | AutoDiff_SingleResBlk | AnalyticDiff | AnalyticDiff_SingleResBlk

  datatype CeresSolverType = LinearSearch_BFGS | LinearSearch_LBFGS | TrustRegion_DenseQR

  /** Imager settings. Unsigned fields are naturals, doubles are reals. */
  datatype ImagerPars = ImagerPars(
    imageSize: nat,
    paddedImageSize: nat,
    cellSize: real,
    paddingFactor: real,
    kernelFunction: KernelFunction,
    kernelSupport: nat,
    kernelExact: bool,
    oversampling: nat,
    generateBeam: bool,
    griddingCorrection: bool,
    analyticGcf: bool,
    rFft: FFTRoutine,
    fftWisdomFilename: string)

  /** Conversion of `image_size * padding_factor` to an unsigned integer (truncation). */
  function PaddedSize(imageSize: nat, paddingFactor: real): (p: nat)
    requires paddingFactor >= 0.0
    ensures p as real <= imageSize as real * paddingFactor < p as real + 1.0
  {
    (imageSize as real * paddingFactor).Floor
  }

  /** The default constructor: an empty image, no oversampling, a PSWF kernel. */
  function DefaultImagerPars(): (p: ImagerPars)
    ensures p.imageSize == 0 && p.paddedImageSize == 0 && p.oversampling == 0
    ensures p.kernelFunction == PSWF && p.kernelSupport == 0 && p.kernelExact
    ensures p.paddingFactor == 1.0 && p.cellSize == 0.0
    ensures !p.generateBeam && !p.griddingCorrection && !p.analyticGcf
    ensures p.rFft == FFTW_ESTIMATE_FFT && p.fftWisdomFilename == ""
  {
    ImagerPars(0, 0, 0.0, 1.0, PSWF, 0, true, 0, false, false, false, FFTW_ESTIMATE_FFT, "")
  }

  /** The parameterised constructor, with the source's default arguments; the padded
      size is derived from the image size and the padding factor. */
  function NewImagerPars(
    imageSize: nat,
    cellSize: real,
    paddingFactor: real := 1.0,
    kernelFunction: KernelFunction := PSWF,
    kernelSupport: nat := 3,
    kernelExact: bool := true,
    oversampling: nat := 1,
    generateBeam: bool := false,
    griddingCorrection: bool := true,
    analyticGcf: bool := true,
    rFft: FFTRoutine := FFTW_ESTIMATE_FFT,
    fftWisdomFilename: string := ""): (p: ImagerPars)
    requires paddingFactor >= 0.0
    ensures p.imageSize == imageSize && p.cellSize == cellSize && p.paddingFactor == paddingFactor
    ensures p.paddedImageSize as real <= imageSize as real * paddingFactor < p.paddedImageSize as real + 1.0
    ensures p.kernelFunction == kernelFunction && p.kernelSupport == kernelSupport
    ensures p.kernelExact == kernelExact && p.oversampling == oversampling
    ensures p.generateBeam == generateBeam && p.griddingCorrection == griddingCorrection
    ensures p.analyticGcf == analyticGcf && p.rFft == rFft && p.fftWisdomFilename == fftWisdomFilename
  {
    ImagerPars(imageSize, PaddedSize(imageSize, paddingFactor), cellSize, paddingFactor, kernelFunction,
               kernelSupport, kernelExact, oversampling, generateBeam, griddingCorrection, analyticGcf,
               rFft, fftWisdomFilename)
  }

  /** Only the image size and cell size are mandatory; every omitted argument of the
      parameterised constructor takes its documented default. */
  lemma ImagerParsDefaults(imageSize: nat, cellSize: real)
    ensures var p := NewImagerPars(imageSize, cellSize);
      && p.paddedImageSize == imageSize && p.paddingFactor == 1.0
      && p.kernelFunction == PSWF && p.kernelSupport == 3 && p.kernelExact
      && p.oversampling == 1 && !p.generateBeam && p.griddingCorrection && p.analyticGcf
      && p.rFft == FFTW_ESTIMATE_FFT
  {
  }

  /** The two constructors of the imager settings disagree: the default one is not the
      parameterised one applied to an empty image. They differ in exactly the kernel
      support, the oversampling, the gridding correction and the analytic correction. */
  lemma ImagerDefaultsDiffer()
    ensures var d, p := DefaultImagerPars(), NewImagerPars(0, 0.0);
      && d != p
      && d.(kernelSupport := 3, oversampling := 1, griddingCorrection := true, analyticGcf := true) == p
  {
  }

  /** W-projection settings. */
  datatype WProjectionPars = WProjectionPars(
    numWplanes: nat,
    maxWpconvSupport: nat,
    undersamplingOpt: nat,
    kernelTruncPerc: real,
    hankelOpt: bool,
    hankelProjSlice: bool,
    interpType: InterpType,
    wplanesMedian: bool)
  {
    /** W-projection is switched on by a positive number of w-planes. */
    predicate IsEnabled() { numWplanes > 0 }
  }

  function DefaultWProjectionPars(): (p: WProjectionPars)
    ensures !p.IsEnabled() && p.maxWpconvSupport == 0
    ensures p.undersamplingOpt == 1 && p.kernelTruncPerc == 0.0
    ensures !p.hankelOpt && !p.hankelProjSlice && p.interpType == LINEAR && !p.wplanesMedian
  {
    WProjectionPars(0, 0, 1, 0.0, false, false, LINEAR, false)
  }

  function NewWProjectionPars(
    numWplanes: nat,
    maxWpconvSupport: nat,
    undersamplingOpt: nat := 1,
    kernelTruncPerc: real := 0.0,
    hankelOpt: bool := false,
    hankelProjSlice: bool := false,
    interpType: InterpType := LINEAR,
    wplanesMedian: bool := false): (p: WProjectionPars)
    ensures p.IsEnabled() <==> numWplanes > 0
    ensures p.numWplanes == numWplanes && p.maxWpconvSupport == maxWpconvSupport
    ensures p.undersamplingOpt == undersamplingOpt && p.kernelTruncPerc == kernelTruncPerc
    ensures p.hankelOpt == hankelOpt && p.hankelProjSlice == hankelProjSlice
    ensures p.interpType == interpType && p.wplanesMedian == wplanesMedian
  {
    WProjectionPars(numWplanes, maxWpconvSupport, undersamplingOpt, kernelTruncPerc, hankelOpt,
                    hankelProjSlice, interpType, wplanesMedian)
  }

  /** The default W-projection settings are the parameterised ones with zero planes and
      zero maximum support; turning on any number of planes enables W-projection. */
  lemma WProjectionDefaultIsDisabled(numWplanes: nat, maxWpconvSupport: nat)
    ensures DefaultWProjectionPars() == NewWProjectionPars(0, 0)
    ensures NewWProjectionPars(numWplanes, maxWpconvSupport).IsEnabled() <==> numWplanes != 0
  {
  }

  /** A-projection settings. `lha` is the local-hour-angle matrix (row by row). */
  datatype AProjectionPars = AProjectionPars(
    numTimesteps: nat,
    obsDec: real,
    obsRa: real,
    aprojOpt: bool,
    aprojMaskPerc: real,
    lha: seq<seq<real>>,
    pbeamCoefs: seq<real>)
  {
    /** A-projection is switched on by a positive number of time steps. */
    predicate IsEnabled() { numTimesteps > 0 }
  }

  function DefaultAProjectionPars(): (p: AProjectionPars)
    ensures !p.IsEnabled() && !p.aprojOpt && p.aprojMaskPerc == 0.0
    ensures p.obsDec == 0.0 && p.obsRa == 0.0 && p.lha == [] && p.pbeamCoefs == []
  {
    AProjectionPars(0, 0.0, 0.0, false, 0.0, [], [])
  }

  function NewAProjectionPars(
    numTimesteps: nat,
    obsDec: real := 0.0,
    obsRa: real := 0.0,
    aprojOpt: bool := false,
    aprojMaskPerc: real := 0.0,
    lha: seq<seq<real>> := [],
    pbeamCoefs: seq<real> := []): (p: AProjectionPars)
    ensures p.IsEnabled() <==> numTimesteps > 0
    ensures p.numTimesteps == numTimesteps && p.obsDec == obsDec && p.obsRa == obsRa
    ensures p.aprojOpt == aprojOpt && p.aprojMaskPerc == aprojMaskPerc
    ensures p.lha == lha && p.pbeamCoefs == pbeamCoefs
  {
    AProjectionPars(numTimesteps, obsDec, obsRa, aprojOpt, aprojMaskPerc, lha, pbeamCoefs)
  }

  /** The default A-projection settings are the parameterised ones with zero time steps. */
  lemma AProjectionDefaultIsDisabled(numTimesteps: nat)
    ensures DefaultAProjectionPars() == NewAProjectionPars(0)
    ensures NewAProjectionPars(numTimesteps).IsEnabled() <==> numTimesteps != 0
  {
  }
}
