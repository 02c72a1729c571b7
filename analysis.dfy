/**
 * The `AnalysisResult` record that the extraction service returns for a batch of
 * bank statements and that a report stores. Every monetary figure is a real
 * number; counts and scores are integers.
 */
module Analysis {
  import opened Wrappers

  /** One month of aggregated balances and flows; `month` is the `YYYY-MM` key. */
  datatype MonthlySnapshot = MonthlySnapshot(
    month: string,
    monthName: string,
    beginningBalance: real,
    endingBalance: real,
    totalDeposits: real,
    totalWithdrawals: real,
    negativeDays: int,
    averageDailyBalance: real)

  datatype Period = Period(start: string, end: string)

  datatype RevenueAnalysis = RevenueAnalysis(
    estimatedMonthlyRevenue: real,
    revenueGrowthPercent: real,
    primaryRevenueSources: seq<string>,
    revenueConsistency: string)

  datatype ExpenseAnalysis = ExpenseAnalysis(
    categories: map<string, real>,
    totalMonthlyExpenses: real,
    largestExpenseCategory: string)

  datatype McaPosition = McaPosition(lender: string, estimatedDailyPayment: real, status: string)

  datatype DebtObligations = DebtObligations(
    identifiedMCAPositions: seq<McaPosition>,
    totalDailyDebtPayments: real,
    estimatedMonthlyDebtService: real)

  datatype CashFlowHealth = CashFlowHealth(
    score: int,
    rating: string,
    overdraftFrequency: string,
    totalOverdraftFees: real,
    cashFlowTiming: string)

  datatype FundabilityAssessment = FundabilityAssessment(
    score: int,
    rating: string,
    estimatedFundingCapacity: real,
    recommendedProducts: seq<string>,
    strengths: seq<string>,
    concerns: seq<string>,
    recommendations: seq<string>)

  /** A red flag; the source's `type` field is `flagType` here, `type` being a Dafny keyword. */
  datatype RedFlag = RedFlag(flagType: string, description: string, severity: string, amount: Option<real>)

  datatype Insight = Insight(category: string, title: string, description: string, actionable: bool, priority: string)

  datatype AnalysisResult = AnalysisResult(
    businessName: string,
    accountNumber: string,
    bankName: string,
    periodCovered: Period,
    monthlyData: seq<MonthlySnapshot>,
    revenueAnalysis: RevenueAnalysis,
    expenseAnalysis: ExpenseAnalysis,
    debtObligations: DebtObligations,
    cashFlowHealth: CashFlowHealth,
    fundabilityAssessment: FundabilityAssessment,
    redFlags: seq<RedFlag>,
    insights: seq<Insight>,
    summary: string)

  /** The key by which monthly data is merged. */
  function MonthOf(m: MonthlySnapshot): string { m.month }

  /** The key by which red flags are de-duplicated. */
  function FlagKey(f: RedFlag): (string, string) { (f.flagType, f.description) }

  /** The key by which insights are de-duplicated. */
  function InsightKey(i: Insight): string { i.title }
}
